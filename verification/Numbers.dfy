/** Printing and parsing numbers (src/kernel/lib/string_util.cpp, src/kernel/lib/math.cpp). */
module Numbers {
  import opened Options
  import opened Powers
  import opened Division
  import Arith

  const DIGITS: string := "0123456789ABCDEF"

  /** A number written in a base, without leading zeros. */
  function Digits(v: nat, base: nat): string
    requires 2 <= base <= 16
  {
    if v < base then [DIGITS[v]] else Digits(v / base, base) + [DIGITS[v % base]]
  }

  /** The digits in the buffer's last places, written from the back. */
  method UtoaBase(number: Word, base: nat) returns (text: string)
    requires 2 <= base <= 16
    ensures text == Digits(number, base)
  {
    hide Pow2;
    hide Digits;
    var buffer := new char[65];
    var ptr := 64;
    buffer[ptr] := '\0';
    if number == 0 {
      ptr := ptr - 1;
      buffer[ptr] := '0';
      DigitsOfZero(base);
      return buffer[ptr..64];
    }
    SixteenFits();
    var value: Word := number;
    assert buffer[64..64] == [];
    while value > 0
      invariant ptr <= 64 && value < Pow2(ptr)
      invariant Digits(number, base) == (if value > 0 then Digits(value, base) else "") + buffer[ptr..64]
    {
      NoRoom(value, ptr);
      var digit := UMod64(value, base);
      var rest := UDiv64(value, base);
      DigitFits(value, base, ptr);
      ghost var written := buffer[ptr..64];
      ptr := ptr - 1;
      buffer[ptr] := DIGITS[digit];
      assert buffer[ptr..64] == [DIGITS[digit]] + written;
      NextDigit(value, base, written);
      value := rest;
    }
    return buffer[ptr..64];
  }

  lemma DigitsOfZero(base: nat)
    requires 2 <= base <= 16
    ensures Digits(0, base) == ['0']
  {
  }

  lemma SixteenFits()
    ensures 16 < Pow2(64)
  {
    PowMono(5, 64);
    assert Pow2(5) == 32;
  }

  lemma NoRoom(value: nat, ptr: nat)
    requires 0 < value < Pow2(ptr)
    ensures ptr > 0
  {
  }

  /** Each digit leaves a number of one bit less. */
  lemma DigitFits(value: nat, base: nat, ptr: nat)
    requires 2 <= base <= 16 && ptr > 0 && value < Pow2(ptr)
    ensures value / base < Pow2(ptr - 1) && value % base < 16 && value / base <= value
  {
    var q := value / base;
    assert value == base * q + value % base;
    Arith.MulMonotone(2, base, q);
  }

  lemma NextDigit(value: nat, base: nat, written: string)
    requires 2 <= base <= 16 && value > 0
    ensures value % base < 16
    ensures Digits(value, base) + written
         == (if value / base > 0 then Digits(value / base, base) else "") + ([DIGITS[value % base]] + written)
  {
    if value < base {
      Arith.DivUnique(value, base, 0, value);
    } else {
      Arith.QuotientAtLeast(value, base, 1);
    }
  }

  /** The first digit is 0 only for the number 0, which has no other. */
  lemma {:induction false} NoLeadingZero(v: nat, base: nat)
    requires 2 <= base <= 16
    ensures Digits(v, base)[0] == '0' <==> v == 0
    ensures v == 0 ==> |Digits(v, base)| == 1
  {
    if v >= base {
      Arith.QuotientAtLeast(v, base, 1);
      NoLeadingZero(v / base, base);
    }
  }

  /** The digits from ten on are capital letters. */
  lemma {:induction false} DigitCharacters(v: nat, base: nat, i: nat)
    requires 2 <= base <= 16 && i < |Digits(v, base)|
    ensures '0' <= Digits(v, base)[i] <= '9' || 'A' <= Digits(v, base)[i] <= 'F'
    decreases v
  {
    if v >= base && i < |Digits(v, base)| - 1 {
      SmallerQuotient(v, base);
      DigitCharacters(v / base, base, i);
    }
  }

  lemma SmallerQuotient(v: nat, base: nat)
    requires 2 <= base <= v
    ensures v / base < v
  {
    var q := v / base;
    assert v == base * q + v % base;
    Arith.MulMonotone(2, base, q);
  }

  // ---------------------------------------------------------------------------------------------
  // Parsing

  /** The value of a digit, in capitals or small letters. */
  function DigitValue(c: char): (d: Option<nat>)
    ensures d.Some? ==> d.value < 16
  {
    if '0' <= c <= '9' then Some(c as nat - '0' as nat)
    else if 'A' <= c <= 'F' then Some(c as nat - 'A' as nat + 10)
    else if 'a' <= c <= 'f' then Some(c as nat - 'a' as nat + 10)
    else None
  }

  /** Exactly one decimal digit has each value below ten, and one letter, large or small, each of the others. */
  lemma DigitValueIff(c: char, d: nat)
    ensures DigitValue(c) == Some(d) <==>
              (d < 10 && c as nat == '0' as nat + d)
              || (10 <= d < 16 && (c as nat == 'A' as nat + d - 10 || c as nat == 'a' as nat + d - 10))
  {
  }

  function DigitIn(c: char, base: nat): Option<nat>
  {
    var d := DigitValue(c);
    if d.Some? && d.value < base then d else None
  }

  /** The value of a text, if all its characters are digits of the base; nothing is 0. */
  function Value(s: string, base: nat): Option<nat>
  {
    if s == "" then Some(0)
    else
      var above, last := Value(s[..|s| - 1], base), DigitIn(s[|s| - 1], base);
      if above.Some? && last.Some? then Some(base * above.value + last.value) else None
  }

  /** Without a leading `0x` or `0X`. */
  function WithoutPrefix(s: string): string
  {
    if |s| >= 2 && s[0] == '0' && (s[1] == 'x' || s[1] == 'X') then s[2..] else s
  }

  /** What the parsers return in numbers below `limit`: 0 for a text with other characters in it. */
  function Parsed(s: string, base: nat, limit: nat): nat
    requires limit > 0
  {
    var v := Value(s, base);
    if v.Some? then v.value % limit else 0
  }

  lemma ModStep(x: nat, k: nat, d: nat, m: nat)
    requires m > 0
    ensures (k * (x % m) + d) % m == (k * x + d) % m
  {
    var y := k * (x % m) + d;
    assert x == m * (x / m) + x % m;
    assert k * x + d == m * (k * (x / m) + y / m) + y % m by {
      assert k * x == k * (m * (x / m)) + k * (x % m);
      assert k * (m * (x / m)) == m * (k * (x / m));
      assert y == m * (y / m) + y % m;
      assert m * (k * (x / m) + y / m) == m * (k * (x / m)) + m * (y / m);
    }
    Arith.DivUnique(k * x + d, m, k * (x / m) + y / m, y % m);
  }

  /** A shifted number has room for a digit below. */
  lemma OrDigit(y: nat, d: nat, m: nat, k: nat)
    requires m == 16 * k && k > 0 && d < 16
    ensures 16 * y % m + d == (16 * y + d) % m
  {
    var q, r := y / k, y % k;
    assert y == k * q + r;
    assert 16 * y == m * q + 16 * r;
    Arith.DivUnique(16 * y, m, q, 16 * r);
    Arith.DivUnique(16 * y + d, m, q, 16 * r + d);
  }

  lemma {:induction false} BadPrefix(s: string, base: nat, i: nat)
    requires i <= |s| && Value(s[..i], base).None?
    ensures Value(s, base).None?
    decreases |s| - i
  {
    if i < |s| {
      assert s[..i + 1][..i] == s[..i];
      BadPrefix(s, base, i + 1);
    } else {
      assert s[..i] == s;
    }
  }

  lemma NextValue(s: string, base: nat, i: nat)
    requires i < |s|
    ensures Value(s[..i + 1], base) == (var above, last := Value(s[..i], base), DigitIn(s[i], base);
                                        if above.Some? && last.Some? then Some(base * above.value + last.value)
                                            else None)
  {
    assert s[..i + 1][..i] == s[..i];
  }

  /** `hex_to_uint32` and `hex_to_uint64`, for 32 and 64 bits. */
  method HexToUint(hexStr: string, bits: nat) returns (result: nat)
    requires bits >= 4
    ensures result == Parsed(WithoutPrefix(hexStr), 16, Pow2(bits))
  {
    var s := if |hexStr| >= 2 && hexStr[0] == '0' && (hexStr[1] == 'x' || hexStr[1] == 'X') then hexStr[2..]
        else hexStr;
    var i := 0;
    result := 0;
    var limit := Pow2(bits);
    Nibbles(bits);
    hide Pow2;
    hide Value;
    ValueOfNothing(s, 16);
    Arith.DivUnique(0, limit, 0, 0);
    while i < |s|
      invariant i <= |s| && Value(s[..i], 16).Some? && result == Value(s[..i], 16).value % limit
    {
      NextValue(s, 16, i);
      var digit := DigitValue(s[i]);
      if digit.None? {
        BadPrefix(s, 16, i + 1);
        return 0;
      }
      OrDigit(result, digit.value, limit, Pow2(bits - 4));
      ModStep(Value(s[..i], 16).value, 16, digit.value, limit);
      result := 16 * result % limit + digit.value;
      i := i + 1;
    }
    assert s[..i] == s;
  }

  /** `dec_to_uint32`. */
  method DecToUint32(decStr: string) returns (result: nat)
    ensures result == Parsed(decStr, 10, Pow2(32))
  {
    var i := 0;
    result := 0;
    var limit := Pow2(32);
    hide Pow2;
    hide Value;
    ValueOfNothing(decStr, 10);
    Arith.DivUnique(0, limit, 0, 0);
    while i < |decStr|
      invariant i <= |decStr| && Value(decStr[..i], 10).Some? && result == Value(decStr[..i], 10).value % limit
    {
      NextValue(decStr, 10, i);
      if !('0' <= decStr[i] <= '9') {
        BadPrefix(decStr, 10, i + 1);
        return 0;
      }
      var digit := decStr[i] as nat - '0' as nat;
      ModStep(Value(decStr[..i], 10).value, 10, digit, limit);
      result := (10 * result + digit) % limit;
      i := i + 1;
    }
    assert decStr[..i] == decStr;
  }

  lemma ValueOfNothing(s: string, base: nat)
    ensures Value(s[..0], base) == Some(0)
  {
  }

  lemma Nibbles(bits: nat)
    requires bits >= 4
    ensures Pow2(bits) == 16 * Pow2(bits - 4)
  {
    assert Pow2(bits) == 2 * Pow2(bits - 1) && Pow2(bits - 1) == 2 * Pow2(bits - 2);
    assert Pow2(bits - 2) == 2 * Pow2(bits - 3) && Pow2(bits - 3) == 2 * Pow2(bits - 4);
  }

  // ---------------------------------------------------------------------------------------------
  // Round trips

  lemma DigitOf(d: nat, base: nat)
    requires d < base <= 16
    ensures DigitIn(DIGITS[d], base) == Some(d)
  {
  }

  /** A printed number has its value. */
  lemma {:induction false} ValueOfDigits(v: nat, base: nat)
    requires 2 <= base <= 16
    ensures Value(Digits(v, base), base) == Some(v)
    decreases v
  {
    hide DigitIn;
    if v < base {
      DigitOf(v, base);
      assert [DIGITS[v]][..0] == "";
    } else {
      var q, r := v / base, v % base;
      assert v == base * q + r;
      Arith.MulMonotone(2, base, q);
      ValueOfDigits(q, base);
      DigitOf(r, base);
      var s := Digits(q, base) + [DIGITS[r]];
      assert s[..|s| - 1] == Digits(q, base);
    }
  }

  lemma {:induction false} AllDigits(s: string, base: nat, i: nat)
    requires Value(s, base).Some? && i < |s|
    ensures DigitIn(s[i], base).Some?
    decreases |s|
  {
    if i < |s| - 1 {
      AllDigits(s[..|s| - 1], base, i);
    }
  }

  /** A text with another character in it counts as 0. */
  lemma BadCharacter(s: string, base: nat, i: nat, limit: nat)
    requires i < |s| && DigitIn(s[i], base).None? && limit > 0
    ensures Parsed(s, base, limit) == 0
  {
    if Value(s, base).Some? {
      AllDigits(s, base, i);
    }
  }

  /** A leading `0x` changes nothing about digits that follow. */
  lemma PrefixOptional(s: string, limit: nat)
    requires Value(s, 16).Some? && limit > 0
    ensures Parsed(WithoutPrefix("0x" + s), 16, limit) == Parsed(WithoutPrefix("0X" + s), 16, limit)
         == Parsed(WithoutPrefix(s), 16, limit) == Value(s, 16).value % limit
  {
    if |s| >= 2 {
      AllDigits(s, 16, 1);
    }
    assert WithoutPrefix(s) == s;
    assert ("0x" + s)[2..] == s && ("0X" + s)[2..] == s;
  }

  /** A printed number comes back exactly if it is in the parser's range. */
  lemma PrintedComesBackIff(v: nat, base: nat, limit: nat)
    requires base == 10 || base == 16
    requires limit > 0
    ensures Parsed(WithoutPrefix(Digits(v, base)), base, limit) == v % limit == Parsed(Digits(v, base), base, limit)
    ensures Parsed(WithoutPrefix(Digits(v, base)), base, limit) == v <==> v < limit
  {
    var s := Digits(v, base);
    ValueOfDigits(v, base);
    if |s| >= 2 {
      AllDigits(s, base, 1);
    }
    assert WithoutPrefix(s) == s;
    if v < limit {
      Arith.DivUnique(v, limit, 0, v);
    }
  }
}
