/** Number formatting and parsing: itoa, ltoa and atoi. */
module Numerals {

  // ----- Digits and numerals -----

  function DigitChar(d: nat): char
    requires d < 36
  {
    if d <= 9 then '0' + d as char else 'a' + (d - 10) as char
  }

  /** The value of a digit of either case, or -1. */
  function DigitValue(c: char): (d: int)
    ensures -1 <= d < 36
  {
    if '0' <= c <= '9' then c as int - '0' as int
    else if 'a' <= c <= 'z' then c as int - 'a' as int + 10
    else if 'A' <= c <= 'Z' then c as int - 'A' as int + 10
    else -1
  }

  predicate IsNumeral(s: string, base: nat) {
    forall i :: 0 <= i < |s| ==> 0 <= DigitValue(s[i]) < base
  }

  /** The number a digit string stands for, most significant digit first. */
  function Value(s: string, base: nat): nat
    requires IsNumeral(s, base)
  {
    if s == [] then 0 else Value(s[..|s| - 1], base) * base + DigitValue(s[|s| - 1])
  }

  /** The digits of a positive number, least significant first; none for zero. */
  function Digits(n: nat, base: nat): string
    requires 2 <= base <= 36
  {
    if n == 0 then [] else
      DivisionShrinks(n, base);
      [DigitChar(n % base)] + Digits(n / base, base)
  }

  lemma DivisionShrinks(n: nat, base: nat)
    requires n > 0 && base >= 2
    ensures n / base < n && n == n / base * base + n % base && 0 <= n % base < base
  {
    TimesTwo(n / base, base);
  }

  lemma TimesTwo(q: nat, base: nat)
    requires base >= 2
    ensures q * base >= q * 2
  {
  }

  function Reverse(s: string): (r: string)
    ensures |r| == |s|
  {
    if s == [] then [] else Reverse(s[1..]) + [s[0]]
  }

  lemma {:induction false} ReverseAt(s: string, k: nat)
    requires k < |s|
    ensures Reverse(s)[k] == s[|s| - 1 - k]
  {
    if k < |s| - 1 {
      ReverseAt(s[1..], k);
    }
  }

  /** The text a number is written as: "0", or its digits, most significant first. */
  function Numeral(n: nat, base: nat): string
    requires 2 <= base <= 36
  {
    if n == 0 then "0" else Reverse(Digits(n, base))
  }

  lemma DigitRoundTrip(d: nat)
    requires d < 36
    ensures DigitValue(DigitChar(d)) == d
  {
  }

  lemma ValueAppend(s: string, c: char, base: nat)
    requires IsNumeral(s, base) && 0 <= DigitValue(c) < base
    ensures IsNumeral(s + [c], base) && Value(s + [c], base) == Value(s, base) * base + DigitValue(c)
  {
    assert (s + [c])[..|s|] == s;
  }

  lemma DigitsStep(n: nat, base: nat)
    requires 2 <= base <= 36 && n > 0 && 0 <= n / base < n && 0 <= n % base < base
    ensures Reverse(Digits(n, base)) == Reverse(Digits(n / base, base)) + [DigitChar(n % base)]
  {
    hide DigitChar, Reverse, Digits;
    FirstDigit(n, base);
    LastDigitFirst(Digits(n / base, base), DigitChar(n % base));
  }

  lemma FirstDigit(n: nat, base: nat)
    requires 2 <= base <= 36 && n > 0 && 0 <= n / base < n && 0 <= n % base < base
    ensures Digits(n, base) == [DigitChar(n % base)] + Digits(n / base, base)
  {
  }

  lemma LastDigitFirst(s: string, c: char)
    ensures Reverse([c] + s) == Reverse(s) + [c]
  {
    assert ([c] + s)[1..] == s;
  }

  /** The digits of a number, put in reading order, stand for it. */
  lemma {:induction false} DigitsValue(n: nat, base: nat)
    requires 2 <= base <= 36
    ensures IsNumeral(Reverse(Digits(n, base)), base) && Value(Reverse(Digits(n, base)), base) == n
    ensures n > 0 ==> Reverse(Digits(n, base)) != [] && DigitValue(Reverse(Digits(n, base))[0]) > 0
    decreases n
  {
    hide Digits, Value, DigitValue, DigitChar, IsNumeral, Reverse;
    NoDigits(base);
    if n > 0 {
      DivisionShrinks(n, base);
      DigitsStep(n, base);
      var q, d := n / base, n % base;
      var high, c := Reverse(Digits(q, base)), DigitChar(d);
      DigitsValue(q, base);
      DigitRoundTrip(d);
      ValueAppend(high, c, base);
      if q == 0 {
        assert n == d;
      } else {
        assert (high + [c])[0] == high[0];
      }
    }
  }

  lemma NoDigits(base: nat)
    requires 2 <= base <= 36
    ensures Digits(0, base) == [] && Reverse(Digits(0, base)) == [] && IsNumeral([], base) && Value([], base) == 0
  {
  }

  /** A numeral is made of digits of its base, stands for its number and has no leading zero. */
  lemma NumeralMeaning(n: nat, base: nat)
    requires 2 <= base <= 36
    ensures IsNumeral(Numeral(n, base), base) && Value(Numeral(n, base), base) == n
    ensures Numeral(n, base) != [] && (|Numeral(n, base)| > 1 ==> DigitValue(Numeral(n, base)[0]) > 0)
  {
    DigitsValue(n, base);
    if n == 0 {
      ValueAppend([], '0', base);
      assert [] + ['0'] == "0";
    }
  }

  predicate IsLowerCase(s: string) { forall i :: 0 <= i < |s| ==> !('A' <= s[i] <= 'Z') }

  /** Canonical: a lower-case digit string without a leading zero is the numeral of its value, so it is
      the only such string with that value. */
  lemma NumeralIsCanonical(s: string, base: nat)
    requires 2 <= base <= 36 && IsNumeral(s, base) && IsLowerCase(s) && s != []
    requires |s| > 1 ==> DigitValue(s[0]) > 0
    ensures Numeral(Value(s, base), base) == s
  {
    if |s| == 1 && DigitValue(s[0]) == 0 {
      assert s == "0" && Value(s[..0], base) == 0;
    } else {
      DigitsOfValue(s, base);
      ValuePositive(s, base);
    }
  }

  lemma {:induction false} DigitsOfValue(s: string, base: nat)
    requires 2 <= base <= 36 && IsNumeral(s, base) && IsLowerCase(s) && (s != [] ==> DigitValue(s[0]) > 0)
    ensures Reverse(Digits(Value(s, base), base)) == s
    decreases |s|
  {
    if s == [] {
      NoDigits(base);
    } else {
      var init, last, v := s[..|s| - 1], s[|s| - 1], Value(s, base);
      DigitsOfValue(init, base);
      ValuePositive(s, base);
      CharOfDigit(last);
      QuotientAndDigit(Value(init, base), DigitValue(last), base, v);
      DivisionShrinks(v, base);
      DigitsStep(v, base);
      assert s == init + [last];
    }
  }

  lemma CharOfDigit(c: char)
    requires DigitValue(c) >= 0 && !('A' <= c <= 'Z')
    ensures DigitChar(DigitValue(c)) == c
  {
  }

  lemma {:induction false} ValuePositive(s: string, base: nat)
    requires base >= 2 && IsNumeral(s, base) && s != [] && DigitValue(s[0]) > 0
    ensures Value(s, base) > 0
    decreases |s|
  {
    if |s| > 1 {
      ValuePositive(s[..|s| - 1], base);
      TimesTwo(Value(s[..|s| - 1], base), base);
    }
  }

  lemma QuotientAndDigit(q: nat, d: nat, base: nat, v: nat)
    requires d < base && v == q * base + d
    ensures v / base == q && v % base == d
  {
    var a, r := v / base, v % base;
    assert v == a * base + r;
    Distribute(q, a, base);
    if a < q {
      AtLeastOnce(q - a, base);
    } else if a > q {
      AtLeastOnce(a - q, base);
      Distribute(a, q, base);
    }
  }

  lemma Distribute(a: int, b: int, c: int)
    ensures (a - b) * c == a * c - b * c
  {
  }

  lemma AtLeastOnce(a: nat, b: nat)
    requires a > 0
    ensures a * b >= b
  {
  }

  // ----- Formatting -----

  const INT_LIMIT := 0x1_0000_0000

  /** The number whose digits are written: the absolute value in base 10, the unsigned value otherwise. */
  function Magnitude(val: int, limit: int, base: nat): nat
    requires 0 < limit && -limit <= val
  {
    if val < 0 && base == 10 then -val else val % limit
  }

  /** What itoa (limit 2^32) and ltoa (limit 2^64) write for a value. */
  function Text(val: int, limit: int, base: nat): string
    requires 0 < limit && -limit <= val && 2 <= base <= 36
  {
    if val < 0 && base == 10 then "-" + Numeral(Magnitude(val, limit, base), base)
    else Numeral(Magnitude(val, limit, base), base)
  }

  /** The digit loop's writes, before the reversal. */
  function Backwards(val: int, limit: int, base: nat): string
    requires 0 < limit && -limit <= val && 2 <= base <= 36
  {
    Digits(Magnitude(val, limit, base), base) + if val < 0 && base == 10 then "-" else []
  }

  lemma {:induction false} ReverseAppend(s: string, c: char)
    ensures Reverse(s + [c]) == [c] + Reverse(s)
  {
    if s != [] {
      assert (s + [c])[1..] == s[1..] + [c];
      ReverseAppend(s[1..], c);
    }
  }

  lemma TextIsBackwardsReversed(val: int, limit: int, base: nat)
    requires val != 0 && -limit < val < limit && 2 <= base <= 36
    ensures Text(val, limit, base) == Reverse(Backwards(val, limit, base))
  {
    var m := Magnitude(val, limit, base);
    assert m > 0 by {
      if val > 0 {
        SmallRemainder(val, limit);
      } else if base != 10 {
        NegativeRemainder(val, limit);
      }
    }
    if val < 0 && base == 10 {
      ReverseAppend(Digits(m, base), '-');
    } else {
      assert Digits(m, base) + [] == Digits(m, base);
    }
  }

  lemma TextOfZero(limit: int, base: nat)
    requires limit > 0 && 2 <= base <= 36
    ensures Text(0, limit, base) == "0"
  {
    SmallRemainder(0, limit);
  }

  /** What the digit loop is given, and what is written behind its digits. */
  lemma DigitsToWrite(val: int, limit: int, base: nat)
    requires limit >= 2 && -limit <= 2 * val < limit && val != 0 && 2 <= base <= 36
    ensures var tmp := if val < 0 && base == 10 then -val else val % limit;
      && tmp > 0
      && Backwards(val, limit, base) == Digits(tmp, base) + if val < 0 && base == 10 then "-" else []
  {
    hide Digits;
    if val > 0 {
      SmallRemainder(val, limit);
    } else {
      NegativeRemainder(val, limit);
    }
  }

  /** What the text says: in base 10 the value with its sign, in the other bases the value as an unsigned number of that
      width. */
  lemma TextMeaning(val: int, limit: int, base: nat)
    requires limit >= 2 && -limit <= 2 * val < limit && 2 <= base <= 36
    ensures var text := Text(val, limit, base);
      if val < 0 && base == 10 then
        text != [] && text[0] == '-' && IsNumeral(text[1..], 10) && Value(text[1..], 10) == -val
      else IsNumeral(text, base) && Value(text, base) == if val < 0 then val + limit else val
  {
    hide Numeral, Value, IsNumeral;
    var m := Magnitude(val, limit, base);
    if val >= 0 {
      SmallRemainder(val, limit);
    } else if base != 10 {
      NegativeRemainder(val, limit);
    }
    NumeralMeaning(m, base);
    if val < 0 && base == 10 {
      assert Text(val, limit, base)[1..] == Numeral(m, base);
    }
  }

  lemma SmallRemainder(v: nat, limit: int)
    requires v < limit
    ensures v % limit == v
  {
  }

  lemma NegativeRemainder(v: int, limit: int)
    requires -limit < v < 0
    ensures v % limit == v + limit
  {
  }

  /** itoa and ltoa, which differ only in the width `limit` of the number: the text of the value, ended by
      a NUL. Base 0 is refused. */
  method Format(val: int, limit: int, dst: array<char>, base: nat) returns (ok: bool)
    requires limit >= 2 && -limit <= 2 * val < limit && base != 1 && base <= 36
    requires base != 0 ==> dst.Length > |Text(val, limit, base)|
    modifies dst
    ensures ok <==> base != 0
    ensures ok ==> var text := Text(val, limit, base);
      dst[..|text|] == text && dst[|text|] == '\0'
  {
    if base == 0 {
      return false;
    }
    if val == 0 {
      TextOfZero(limit, base);
      dst[0] := '0';
      dst[1] := '\0';
      return true;
    }
    TextIsBackwardsReversed(val, limit, base);
    DigitsToWrite(val, limit, base);
    hide Text, Backwards, Digits, Reverse, Magnitude;
    var tmp := if val < 0 && base == 10 then -val else val % limit;
    var len := WriteDigits(tmp, dst, base);
    if val < 0 && base == 10 {
      dst[len] := '-';
      len := len + 1;
      dst[len] := '\0';
    }
    assert dst[..len] == Backwards(val, limit, base);
    ghost var end := dst[len..];
    ReversePrefix(dst, len);
    assert dst[len] == end[0];
    return true;
  }

  /** The digit loop: the digits of a positive number, least significant first, ended by a NUL. */
  method WriteDigits(n: nat, dst: array<char>, base: nat) returns (len: nat)
    requires 2 <= base <= 36 && n > 0 && dst.Length > |Digits(n, base)|
    modifies dst
    ensures len == |Digits(n, base)| && dst[..len] == Digits(n, base) && dst[len] == '\0'
  {
    hide DigitChar, Digits;
    NoDigits(base);
    var tmp: nat := n;
    len := 0;
    while tmp != 0
      invariant len <= |Digits(n, base)| && Digits(n, base) == dst[..len] + Digits(tmp, base)
      invariant tmp == 0 ==> dst[len] == '\0'
      decreases tmp
    {
      DivisionShrinks(tmp, base);
      FirstDigit(tmp, base);
      ghost var before := dst[..len];
      var c := DigitChar(tmp % base);
      dst[len] := c;
      len := len + 1;
      dst[len] := '\0';
      assert dst[..len] == before + [c];
      tmp := tmp / base;
    }
  }

  /** The in-place reversal at the end of itoa and ltoa. */
  method ReversePrefix(dst: array<char>, n: nat)
    requires n <= dst.Length
    modifies dst
    ensures dst[..n] == Reverse(old(dst[..n])) && dst[n..] == old(dst[n..])
  {
    var start, len := 0, n;
    while start < len
      invariant 0 <= start <= n && start + len == n
      invariant forall k :: 0 <= k < start || len <= k < n ==> dst[k] == old(dst[n - 1 - k])
      invariant forall k :: start <= k < len ==> dst[k] == old(dst[k])
      invariant dst[n..] == old(dst[n..])
      invariant start <= len + 1
    {
      var t := dst[start];
      dst[start] := dst[len - 1];
      dst[len - 1] := t;
      len := len - 1;
      start := start + 1;
    }
    ghost var was := old(dst[..n]);
    forall k | 0 <= k < n ensures dst[..n][k] == Reverse(was)[k] {
      ReverseAt(was, k);
    }
  }

  // ----- Parsing -----

  /** An integer wrapped to int32_t. */
  function Wrap32(x: int): int { (x + 0x8000_0000) % INT_LIMIT - 0x8000_0000 }

  /** The low 28 bits of a number as a signed value. */
  function Signed28(x: int): int { (x + 0x800_0000) % 0x1000_0000 - 0x800_0000 }

  /** The code's own test for a hexadecimal digit, of either case. */
  predicate IsHexDigit(c: char) { '0' <= c <= '9' || 'a' <= c <= 'f' || 'A' <= c <= 'F' }

  /** The leading hexadecimal digits of a string. */
  function HexPrefix(s: string): (p: string)
    ensures IsNumeral(p, 16) && |p| <= |s| && p == s[..|p|]
    ensures |p| < |s| ==> !IsHexDigit(s[|p|])
    ensures forall i :: 0 <= i < |p| ==> IsHexDigit(p[i])
  {
    if s == [] || !IsHexDigit(s[0]) then [] else [s[0]] + HexPrefix(s[1..])
  }

  /** Shifting in one more digit: the register holds 16 times the value read so far, wrapped, so its low
      four bits are clear and OR-ing in a digit adds it. */
  lemma ShiftIn(v: nat, d: nat)
    requires d < 16
    ensures Wrap32(16 * v) % 16 == 0 && Wrap32(Wrap32(16 * v) + d) == Wrap32(16 * v) + d
    ensures Wrap32(16 * (Wrap32(16 * v) + d)) == Wrap32(16 * (v * 16 + d))
  {
    hide Wrap32;
    var w, w' := Wrap32(16 * v), Wrap32(16 * (Wrap32(16 * v) + d));
    var k := Wrapped(16 * v);
    var k' := Wrapped(16 * (w + d));
    assert w == 16 * (v - k * 0x1000_0000);
    WrapsTo(w + d, w + d, 0);
    WrapsTo(16 * (v * 16 + d), w', k' + 16 * k);
  }

  /** The wrapped number differs by a multiple of 2^32. */
  lemma Wrapped(x: int) returns (k: int)
    ensures x == Wrap32(x) + k * INT_LIMIT && -0x8000_0000 <= Wrap32(x) < 0x8000_0000
  {
    k := (x + 0x8000_0000) / INT_LIMIT;
  }

  lemma WrapsTo(x: int, y: int, k: int)
    requires x == y + k * INT_LIMIT && -0x8000_0000 <= y < 0x8000_0000
    ensures Wrap32(x) == y
  {
    assert x + 0x8000_0000 == k * INT_LIMIT + (y + 0x8000_0000);
  }

  lemma FinalShift(v: nat)
    ensures Wrap32(16 * v) / 16 == Signed28(v)
  {
    var k := Wrapped(16 * v);
    hide Wrap32;
    assert Wrap32(16 * v) == 16 * (v - k * 0x1000_0000);
    assert v + 0x800_0000 == k * 0x1000_0000 + (v - k * 0x1000_0000 + 0x800_0000);
  }

  /** One turn of atoi's loop: the register follows the value of the digits read. */
  lemma ReadDigit(p: string, i: nat)
    requires i < |p| && IsNumeral(p, 16)
    ensures Wrap32(16 * (Wrap32(16 * Value(p[..i], 16)) + DigitValue(p[i]))) == Wrap32(16 * Value(p[..i + 1], 16))
  {
    hide Wrap32;
    ShiftIn(Value(p[..i], 16), DigitValue(p[i]));
    assert p[..i + 1] == p[..i] + [p[i]];
    ValueAppend(p[..i], p[i], 16);
  }

  lemma NothingRead()
    ensures Wrap32(16 * Value([], 16)) == 0
  {
  }

  /** atoi of a NUL-terminated string with contents `s`. Shifts wrap at 32 bits and the last one is
      arithmetic, so the result is the low 28 bits of the value of the leading hexadecimal digits, as a
      signed number, however many digits there are. Other bases are refused by -1. */
  method Atoi(s: string, base: int) returns (r: int)
    ensures base == 16 ==> r == Signed28(Value(HexPrefix(s), 16))
    ensures base != 16 ==> r == -1
  {
    hide Wrap32, Signed28, Value, HexPrefix;
    if base != 16 {
      return -1;
    }
    var val := 0;
    var i := 0;
    ghost var p := HexPrefix(s);
    assert p[..0] == [];
    NothingRead();
    while true
      invariant i <= |p| && val == Wrap32(16 * Value(p[..i], 16))
      decreases |p| - i
    {
      var c := if i < |s| then s[i] else '\0';
      assert i < |p| ==> c == p[i];
      if i < |p| {
        ReadDigit(p, i);
      }
      if '0' <= c <= '9' {
        val := val + (c as int - '0' as int);
      } else if 'a' <= c <= 'f' {
        val := val + (c as int - 'a' as int) + 10;
      } else if 'A' <= c <= 'F' {
        val := val + (c as int - 'A' as int) + 10;
      } else {
        assert p[..i] == p;
        FinalShift(Value(p, 16));
        return val / 16;
      }
      i := i + 1;
      val := Wrap32(val * 16);
    }
  }

  /** A lower-case hexadecimal digit in the other case. */
  function Upper(c: char): char { if 'a' <= c <= 'f' then c - 'a' + 'A' else c }

  function AllUpper(s: string): (u: string)
    ensures |u| == |s| && forall i :: 0 <= i < |s| ==> u[i] == Upper(s[i])
  {
    seq(|s|, i requires 0 <= i < |s| => Upper(s[i]))
  }

  /** Upper-case digits are read like lower-case ones, all sixteen of them. */
  lemma UpperReadsAlike(s: string)
    requires forall i :: 0 <= i < |s| ==> '0' <= s[i] <= '9' || 'a' <= s[i] <= 'f'
    ensures IsNumeral(s, 16) && IsNumeral(AllUpper(s), 16)
    ensures HexPrefix(s) == s && HexPrefix(AllUpper(s)) == AllUpper(s)
    ensures Value(AllUpper(s), 16) == Value(s, 16)
  {
    var u := AllUpper(s);
    forall i | 0 <= i < |s|
      ensures DigitValue(u[i]) == DigitValue(s[i]) && 0 <= DigitValue(s[i]) < 16 && IsHexDigit(u[i])
    {
    }
    WholePrefix(s);
    WholePrefix(u);
    SameDigits(s, u);
  }

  lemma {:induction false} WholePrefix(s: string)
    requires forall i :: 0 <= i < |s| ==> IsHexDigit(s[i])
    ensures HexPrefix(s) == s
  {
    if s != [] {
      WholePrefix(s[1..]);
      assert s == [s[0]] + s[1..];
    }
  }

  lemma {:induction false} SameDigits(s: string, u: string)
    requires |s| == |u| && IsNumeral(s, 16) && IsNumeral(u, 16)
    requires forall i :: 0 <= i < |s| ==> DigitValue(u[i]) == DigitValue(s[i])
    ensures Value(u, 16) == Value(s, 16)
    decreases |s|
  {
    if s != [] {
      SameDigits(s[..|s| - 1], u[..|u| - 1]);
    }
  }

  /** Parsing what itoa wrote in base 16 gives the number back if and only if it fits 28 signed bits. */
  lemma HexRoundTripIff28Bits(v: int)
    requires -0x8000_0000 <= v < 0x8000_0000
    ensures HexPrefix(Text(v, INT_LIMIT, 16)) == Text(v, INT_LIMIT, 16)
    ensures Signed28(Value(Text(v, INT_LIMIT, 16), 16)) == v <==> -0x800_0000 <= v < 0x800_0000
  {
    hide HexPrefix, Numeral, Value;
    NumeralMeaning(v % INT_LIMIT, 16);
    var s := Text(v, INT_LIMIT, 16);
    forall i | 0 <= i < |s| ensures IsHexDigit(s[i]) {
      HexDigitIsHex(s[i]);
    }
    WholeHexPrefix(s);
  }

  lemma HexDigitIsHex(c: char)
    ensures IsHexDigit(c) <==> 0 <= DigitValue(c) < 16
  {
  }

  lemma {:induction false} WholeHexPrefix(s: string)
    requires forall i :: 0 <= i < |s| ==> IsHexDigit(s[i])
    ensures HexPrefix(s) == s
  {
    if s != [] {
      WholeHexPrefix(s[1..]);
    }
  }
}
