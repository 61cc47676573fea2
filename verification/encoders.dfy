/** The locale-independent text encoders of `print_to_stream_impl.h`:
    integers in base 2, 8, 10 or 16, zero-padded integers, dates, times,
    UTC offsets, date-times, booleans and the float `.0` rule. The stream is
    replaced by the string each encoder returns. */
module Encoders {
  import opened Options
  import opened Nodes

  /** The `value_flags` values that request a base for an integer. */
  const FormatAsBinary: nat := 1
  const FormatAsOctal: nat := 2
  const FormatAsHexadecimal: nat := 3

  function Pow10(n: nat): (r: nat)
    ensures r >= 1
  {
    if n == 0 then 1 else 10 * Pow10(n - 1)
  }

  /** `m` followed by `k` decimal zeros, that is `m * 10^k`. */
  function AppendZeros(m: nat, k: nat): nat
  {
    if k == 0 then m else 10 * AppendZeros(m, k - 1)
  }

  // ---------------------------------------------------------------------
  // Digits

  /** The bases an integer can be printed in. */
  predicate ValidBase(b: nat)
  {
    b == 2 || b == 8 || b == 10 || b == 16
  }

  /** `v / b` and `v % b` and `x * b`, written out per base so that every
      step of the digit proofs stays in linear arithmetic. */
  function Quot(v: nat, b: nat): nat
    requires ValidBase(b)
  {
    if b == 2 then v / 2 else if b == 8 then v / 8 else if b == 10 then v / 10 else v / 16
  }

  function Rem(v: nat, b: nat): nat
    requires ValidBase(b)
  {
    if b == 2 then v % 2 else if b == 8 then v % 8 else if b == 10 then v % 10 else v % 16
  }

  function Scale(x: nat, b: nat): nat
    requires ValidBase(b)
  {
    if b == 2 then x * 2 else if b == 8 then x * 8 else if b == 10 then x * 10 else x * 16
  }

  /** The digit `std::to_chars` writes for `d`: `0`-`9`, then lower-case
      `a`-`f`. */
  function DigitChar(d: nat): char
    requires d < 16
  {
    if d < 10 then ('0' as int + d) as char else ('a' as int + d - 10) as char
  }

  /** A digit of base `base`, in either letter case. */
  predicate IsDigitOf(c: char, base: nat)
  {
    || ('0' <= c <= '9' && (c as int - '0' as int) < base)
    || ('a' <= c <= 'f' && (c as int - 'a' as int) + 10 < base)
    || ('A' <= c <= 'F' && (c as int - 'A' as int) + 10 < base)
  }

  /** Only `0`-`9` and `a`-`f`: what `std::to_chars` writes. */
  predicate LowerDigits(s: string)
  {
    forall i :: 0 <= i < |s| ==> ('0' <= s[i] <= '9' || 'a' <= s[i] <= 'f')
  }

  /** The value of a digit character, letters in either case. */
  function DigitValue(c: char): nat
  {
    if '0' <= c <= '9' then c as int - '0' as int
    else if 'a' <= c <= 'f' then c as int - 'a' as int + 10
    else if 'A' <= c <= 'F' then c as int - 'A' as int + 10
    else 0
  }

  /** `DigitChar` and `DigitValue` are inverse on the digits of a base. */
  lemma DigitCharValue(d: nat, base: nat)
    requires d < base <= 16
    ensures IsDigitOf(DigitChar(d), base)
    ensures DigitValue(DigitChar(d)) == d
    ensures 'a' <= DigitChar(d) <= 'f' || '0' <= DigitChar(d) <= '9'
  {
  }

  /** `std::to_chars(v, base)` for a non-negative value: most significant
      digit first. */
  function Digits(v: nat, base: nat): (s: string)
    requires ValidBase(base)
    ensures |s| >= 1
    decreases v
  {
    if v < base then [DigitChar(v)]
    else Digits(Quot(v, base), base) + [DigitChar(Rem(v, base))]
  }

  /** Every character written is a lower-case digit of the base. */
  lemma DigitsAreDigits(v: nat, base: nat)
    requires ValidBase(base)
    ensures LowerDigits(Digits(v, base))
    ensures forall i :: 0 <= i < |Digits(v, base)| ==> IsDigitOf(Digits(v, base)[i], base)
  {
    forall i | 0 <= i < |Digits(v, base)|
      ensures IsDigitOf(Digits(v, base)[i], base)
      ensures '0' <= Digits(v, base)[i] <= '9' || 'a' <= Digits(v, base)[i] <= 'f'
    {
      DigitAt(v, base, i);
    }
  }

  lemma {:induction false} DigitAt(v: nat, base: nat, i: nat)
    requires ValidBase(base) && i < |Digits(v, base)|
    ensures IsDigitOf(Digits(v, base)[i], base)
    ensures '0' <= Digits(v, base)[i] <= '9' || 'a' <= Digits(v, base)[i] <= 'f'
    decreases v
  {
    if v < base {
      DigitCharValue(v, base);
    } else {
      var q := Quot(v, base);
      if i < |Digits(q, base)| {
        DigitAt(q, base, i);
      } else {
        DigitCharValue(Rem(v, base), base);
      }
    }
  }

  /** A positive value has no leading zero. */
  lemma {:induction false} DigitsNoLeadingZero(v: nat, base: nat)
    requires ValidBase(base)
    ensures v > 0 ==> Digits(v, base)[0] != '0'
    decreases v
  {
    if v >= base {
      DigitsNoLeadingZero(Quot(v, base), base);
    }
  }

  /** Reads a digit string back, most significant digit first. */
  function ReadDigits(s: string, base: nat): nat
    requires ValidBase(base)
  {
    if |s| == 0 then 0 else Scale(ReadDigits(s[..|s| - 1], base), base) + DigitValue(s[|s| - 1])
  }

  /** Appending a digit multiplies the value read so far by the base. */
  lemma ReadSnoc(s: string, c: char, base: nat)
    requires ValidBase(base)
    ensures ReadDigits(s + [c], base) == Scale(ReadDigits(s, base), base) + DigitValue(c)
  {
    assert (s + [c])[..|s|] == s;
  }

  /** Reading the digits back in the same base gives the value. */
  lemma {:induction false} DigitsRoundTrip(v: nat, base: nat)
    requires ValidBase(base)
    ensures ReadDigits(Digits(v, base), base) == v
    decreases v
  {
    if v < base {
      ReadSnoc([], DigitChar(v), base);
      assert [] + [DigitChar(v)] == [DigitChar(v)];
      DigitCharValue(v, base);
    } else {
      DigitsRoundTrip(Quot(v, base), base);
      ReadSnoc(Digits(Quot(v, base), base), DigitChar(Rem(v, base)), base);
      DigitCharValue(Rem(v, base), base);
    }
  }

  /** A digit string without a leading zero has a positive value. */
  lemma {:induction false} LeadingDigitPositive(s: string, base: nat)
    requires ValidBase(base)
    requires |s| >= 1 && s[0] != '0'
    requires forall i :: 0 <= i < |s| ==> IsDigitOf(s[i], base)
    ensures ReadDigits(s, base) > 0
    decreases |s|
  {
    if |s| > 1 {
      LeadingDigitPositive(s[..|s| - 1], base);
    }
  }

  /** A lower-case digit character is what `DigitChar` writes for its value. */
  lemma DigitCharOfValue(c: char, base: nat)
    requires base <= 16 && IsDigitOf(c, base) && !('A' <= c <= 'F')
    ensures DigitValue(c) < base && DigitChar(DigitValue(c)) == c
  {
  }

  lemma CanonicalStep(t: string, c: char, base: nat)
    requires ValidBase(base)
    requires ReadDigits(t, base) > 0 && Digits(ReadDigits(t, base), base) == t
    requires DigitValue(c) < base && DigitChar(DigitValue(c)) == c
    ensures Digits(ReadDigits(t + [c], base), base) == t + [c]
  {
    var q, d := ReadDigits(t, base), DigitValue(c);
    ReadSnoc(t, c, base);
    var v := Scale(q, base) + d;
    assert Quot(v, base) == q && Rem(v, base) == d;
  }

  /** A canonical digit string: non-empty, lower-case digits of the base,
      and no leading zero unless it is `0` itself. */
  predicate Canonical(s: string, base: nat)
  {
    && |s| >= 1
    && (s[0] == '0' ==> |s| == 1)
    && forall i :: 0 <= i < |s| ==> IsDigitOf(s[i], base) && !('A' <= s[i] <= 'F')
  }

  lemma CanonicalPrefix(s: string, base: nat)
    requires Canonical(s, base) && |s| >= 2
    ensures Canonical(s[..|s| - 1], base)
    ensures s[0] != '0'
    ensures forall i :: 0 <= i < |s| - 1 ==> IsDigitOf(s[i], base)
  {
  }

  /** Conversely, a canonical digit string is what `Digits` produces for its
      value: the two are inverse. */
  lemma {:induction false} DigitsCanonical(s: string, base: nat)
    requires ValidBase(base) && Canonical(s, base)
    ensures Digits(ReadDigits(s, base), base) == s
    decreases |s|
  {
    if |s| == 1 {
      CanonicalSingle(s, base);
    } else {
      CanonicalPrefix(s, base);
      DigitsCanonical(s[..|s| - 1], base);
      CanonicalExtend(s, base);
    }
  }

  lemma CanonicalSingle(s: string, base: nat)
    requires ValidBase(base) && Canonical(s, base) && |s| == 1
    ensures Digits(ReadDigits(s, base), base) == s
  {
    DigitCharOfValue(s[0], base);
    ReadSingle(s, base);
  }

  /** A single digit reads as its value. */
  lemma ReadSingle(s: string, base: nat)
    requires ValidBase(base) && |s| == 1
    ensures ReadDigits(s, base) == DigitValue(s[0])
  {
    assert s[..0] == [];
  }

  lemma CanonicalExtend(s: string, base: nat)
    requires ValidBase(base) && Canonical(s, base) && |s| >= 2
    requires Digits(ReadDigits(s[..|s| - 1], base), base) == s[..|s| - 1]
    ensures Digits(ReadDigits(s, base), base) == s
  {
    var t := s[..|s| - 1];
    CanonicalPrefix(s, base);
    LeadingDigitPositive(t, base);
    CanonicalLastDigit(s, base);
  }

  /** The step for the last digit, with the prefix already known to be
      canonical and positive. */
  lemma CanonicalLastDigit(s: string, base: nat)
    requires ValidBase(base) && Canonical(s, base) && |s| >= 2
    requires ReadDigits(s[..|s| - 1], base) > 0
    requires Digits(ReadDigits(s[..|s| - 1], base), base) == s[..|s| - 1]
    ensures Digits(ReadDigits(s, base), base) == s
  {
    var c := s[|s| - 1];
    assert IsDigitOf(c, base) && !('A' <= c <= 'F');
    DigitCharOfValue(c, base);
    CanonicalStep(s[..|s| - 1], c, base);
    SnocSplit(s);
  }

  lemma SnocSplit(s: string)
    requires |s| >= 1
    ensures s == s[..|s| - 1] + [s[|s| - 1]]
  {
  }

  // ---------------------------------------------------------------------
  // Integers

  /** The base `print_integer_to_stream` chooses: the requested binary, octal
      or hexadecimal base for a non-negative value, decimal otherwise. */
  function Radix(v: int, flags: nat): (b: nat)
    ensures ValidBase(b)
  {
    if flags != 0 && v >= 0 then
      if flags == FormatAsBinary then 2
      else if flags == FormatAsOctal then 8
      else if flags == FormatAsHexadecimal then 16
      else 10
    else 10
  }

  /** The base is 2, 8 or 16 exactly when the matching flag is set and the
      value is not negative; every other case, every negative value
      included, is decimal. */
  lemma RadixChoice(v: int, flags: nat)
    ensures Radix(v, flags) in {2, 8, 10, 16}
    ensures Radix(v, flags) == 2 <==> flags == FormatAsBinary && v >= 0
    ensures Radix(v, flags) == 8 <==> flags == FormatAsOctal && v >= 0
    ensures Radix(v, flags) == 16 <==> flags == FormatAsHexadecimal && v >= 0
    ensures v < 0 ==> Radix(v, flags) == 10
  {
  }

  /** One step of the post-conversion loop: a character at or after `a` is
      moved down by 32 to its upper-case form. */
  function UpperDigit(c: char): char
    requires '0' <= c <= '9' || 'a' <= c <= 'f'
  {
    if c >= 'a' then (c as int - 32) as char else c
  }

  /** The loop over the whole digit buffer. */
  function Uppercase(s: string): string
    requires LowerDigits(s)
  {
    seq(|s|, i requires 0 <= i < |s| => UpperDigit(s[i]))
  }

  /** `print_integer_to_stream` on the `std::to_chars` path: zero is `0`,
      negative values get a minus sign and decimal digits, and hexadecimal
      digits are upper-cased afterwards. */
  function IntegerText(v: int, flags: nat): string
  {
    if v == 0 then "0"
    else if v < 0 then "-" + Digits(-v, 10)
    else
      var base := Radix(v, flags);
      var digits := Digits(v, base);
      DigitsAreDigits(v, base);
      if base == 16 then Uppercase(digits) else digits
  }

  /** An integer text read back: an optional minus sign, then digits. */
  function ReadInteger(s: string, base: nat): int
    requires ValidBase(base)
  {
    if |s| > 0 && s[0] == '-' then -(ReadDigits(s[1..], base) as int) else ReadDigits(s, base)
  }

  /** Reading an upper-cased digit string gives the same value. */
  lemma {:induction false} ReadUppercase(s: string, base: nat)
    requires ValidBase(base) && LowerDigits(s)
    ensures ReadDigits(Uppercase(s), base) == ReadDigits(s, base)
    decreases |s|
  {
    if |s| > 0 {
      var t, c := s[..|s| - 1], s[|s| - 1];
      assert s == t + [c];
      var u := Uppercase(s);
      var ut, uc := u[..|u| - 1], u[|u| - 1];
      assert u == ut + [uc];
      UppercasePrefix(s);
      ReadUppercase(t, base);
      ReadSnoc(t, c, base);
      ReadSnoc(ut, uc, base);
    }
  }

  /** Upper-casing commutes with dropping the last character, and keeps
      each digit's value. */
  lemma UppercasePrefix(s: string)
    requires |s| > 0 && LowerDigits(s)
    ensures LowerDigits(s[..|s| - 1])
    ensures Uppercase(s)[..|s| - 1] == Uppercase(s[..|s| - 1])
    ensures DigitValue(Uppercase(s)[|s| - 1]) == DigitValue(s[|s| - 1])
  {
    var u, v := Uppercase(s)[..|s| - 1], Uppercase(s[..|s| - 1]);
    assert |u| == |v|;
    forall i | 0 <= i < |u|
      ensures u[i] == v[i]
    {
    }
  }

  /** The shape of an integer literal in base `base`: an optional minus
      sign, then at least one digit of the base, with no leading zero
      unless the digits are the single `0`. */
  predicate IntegerShape(s: string, base: nat)
  {
    var d := if |s| > 0 && s[0] == '-' then s[1..] else s;
    && |d| >= 1
    && (forall i :: 0 <= i < |d| ==> IsDigitOf(d[i], base))
    && (d[0] == '0' ==> |d| == 1)
  }

  /** Integer text: zero is exactly `0` whatever the flags; otherwise the
      digits are in the chosen base with no leading zero and no lower-case
      letter, a leading `-` marks exactly the negative values, and reading
      the text back in that base gives the value. */
  lemma IntegerTextProperties(v: int, flags: nat)
    ensures v == 0 ==> IntegerText(v, flags) == "0"
    ensures IntegerShape(IntegerText(v, flags), Radix(v, flags))
    ensures ReadInteger(IntegerText(v, flags), Radix(v, flags)) == v
    ensures IntegerText(v, flags)[0] != '0' || v == 0
    ensures (v < 0) <==> IntegerText(v, flags)[0] == '-'
    ensures forall i :: 0 <= i < |IntegerText(v, flags)| ==> !('a' <= IntegerText(v, flags)[i] <= 'z')
  {
    if v < 0 {
      NegativeIntegerText(v, flags);
    } else if v > 0 {
      PositiveIntegerText(v, flags);
    } else {
      ReadZeros("0", Radix(v, flags));
      assert IsDigitOf("0"[0], Radix(v, flags));
    }
  }

  lemma NegativeIntegerText(v: int, flags: nat)
    requires v < 0
    ensures ReadInteger(IntegerText(v, flags), Radix(v, flags)) == v
    ensures IntegerText(v, flags)[0] == '-'
    ensures IntegerShape(IntegerText(v, flags), 10) && IntegerText(v, flags)[1] != '0'
    ensures forall i :: 0 <= i < |IntegerText(v, flags)| ==> !('a' <= IntegerText(v, flags)[i] <= 'z')
  {
    var d := Digits(-v, 10);
    DigitsRoundTrip(-v, 10);
    DigitsAreDigits(-v, 10);
    DigitsNoLeadingZero(-v, 10);
    assert IntegerText(v, flags) == "-" + d;
    assert Radix(v, flags) == 10;
    MinusDigits(d);
  }

  /** A minus sign in front of decimal digits without a leading zero. */
  lemma MinusDigits(d: string)
    requires |d| >= 1 && d[0] != '0'
    requires forall i :: 0 <= i < |d| ==> IsDigitOf(d[i], 10)
    ensures var s := "-" + d;
            && s[0] == '-' && s[1] != '0' && s[1..] == d
            && IntegerShape(s, 10)
            && forall i :: 0 <= i < |s| ==> !('a' <= s[i] <= 'z')
  {
    var s := "-" + d;
    assert s[1..] == d;
    forall i | 0 <= i < |s|
      ensures !('a' <= s[i] <= 'z')
    {
      if i > 0 {
        assert s[i] == d[i - 1];
      }
    }
  }

  lemma PositiveIntegerText(v: int, flags: nat)
    requires v > 0
    ensures ReadInteger(IntegerText(v, flags), Radix(v, flags)) == v
    ensures IntegerText(v, flags)[0] != '0' && IntegerText(v, flags)[0] != '-'
    ensures forall i :: 0 <= i < |IntegerText(v, flags)| ==> IsDigitOf(IntegerText(v, flags)[i], Radix(v, flags))
    ensures forall i :: 0 <= i < |IntegerText(v, flags)| ==> !('a' <= IntegerText(v, flags)[i] <= 'z')
  {
    var base := Radix(v, flags);
    var d := Digits(v, base);
    DigitsRoundTrip(v, base);
    DigitsAreDigits(v, base);
    DigitsNoLeadingZero(v, base);
    if base == 16 {
      ReadUppercase(d, base);
      var u := Uppercase(d);
      assert IntegerText(v, flags) == u;
      assert |u| == |d|;
      forall i | 0 <= i < |d|
        ensures !('a' <= u[i] <= 'z') && IsDigitOf(u[i], base)
      {
        assert u[i] == UpperDigit(d[i]);
      }
    } else {
      assert IntegerText(v, flags) == d;
      forall i | 0 <= i < |d|
        ensures !('a' <= d[i] <= 'z')
      {
        assert IsDigitOf(d[i], base);
      }
    }
  }

  /** The integer text produced when `TOML_INT_CHARCONV` is off, as written:
      the binary branch tests only the flag, not the sign, and prints the
      bits of the value cast to `uint64_t`. */
  function IntegerTextStream(v: int, flags: nat): string
  {
    if v == 0 then "0"
    else if flags == FormatAsBinary then Digits(v % 0x1_0000_0000_0000_0000, 2)
    else IntegerText(v, flags)
  }

  /** On that path a negative value with the binary flag loses its sign and
      reads back as `v + 2^64`: `-1` prints as sixty-four `1`s, not `-1`. */
  lemma StreamBinaryNegative(v: int)
    requires -0x8000_0000_0000_0000 <= v < 0
    ensures IntegerTextStream(v, FormatAsBinary)[0] != '-'
    ensures ReadInteger(IntegerTextStream(v, FormatAsBinary), 2) == v + 0x1_0000_0000_0000_0000
    ensures IntegerTextStream(v, FormatAsBinary) != IntegerText(v, FormatAsBinary)
  {
    var u: nat := v % 0x1_0000_0000_0000_0000;
    assert u == v + 0x1_0000_0000_0000_0000;
    DigitsRoundTrip(u, 2);
    DigitsAreDigits(u, 2);
    var s := Digits(u, 2);
    assert IntegerTextStream(v, FormatAsBinary) == s;
    assert IsDigitOf(s[0], 2);
    NegativeIntegerText(v, FormatAsBinary);
  }

  // ---------------------------------------------------------------------
  // Zero padding

  /** `n` zero characters. */
  function Zeros(n: nat): (s: string)
    ensures |s| == n
    ensures forall i :: 0 <= i < n ==> s[i] == '0'
  {
    seq(n, _ => '0')
  }

  /** The decimal digits of a non-negative value. */
  function Decimal(v: nat): string
  {
    Digits(v, 10)
  }

  /** `print_integer_leftpad_zeros(v, minDigits)`: the decimal digits of `v`
      after as many `0`s as it takes to reach `minDigits` characters. */
  function LeftPadZeros(v: nat, minDigits: nat): string
  {
    var d := Decimal(v);
    (if |d| < minDigits then Zeros(minDigits - |d|) else "") + d
  }

  /** The padded text is `max(minDigits, digits)` long: zeros, then the
      decimal digits of `v`. */
  lemma LeftPadShape(v: nat, minDigits: nat)
    ensures var s := LeftPadZeros(v, minDigits);
            && |s| == (if |Decimal(v)| < minDigits then minDigits else |Decimal(v)|)
            && s[|s| - |Decimal(v)|..] == Decimal(v)
            && forall i :: 0 <= i < |s| - |Decimal(v)| ==> s[i] == '0'
  {
  }

  /** Leading zeros do not change the value read. */
  lemma {:induction false} ReadAfterZeros(z: string, s: string, base: nat)
    requires ValidBase(base)
    requires forall i :: 0 <= i < |z| ==> z[i] == '0'
    ensures ReadDigits(z + s, base) == ReadDigits(s, base)
    decreases |s|
  {
    if |s| == 0 {
      ReadZeros(z, base);
      assert z + s == z;
    } else {
      assert (z + s)[..|z + s| - 1] == z + s[..|s| - 1];
      ReadAfterZeros(z, s[..|s| - 1], base);
    }
  }

  lemma {:induction false} ReadZeros(z: string, base: nat)
    requires ValidBase(base)
    requires forall i :: 0 <= i < |z| ==> z[i] == '0'
    ensures ReadDigits(z, base) == 0
    decreases |z|
  {
    if |z| > 0 {
      ReadZeros(z[..|z| - 1], base);
    }
  }

  /** A value below `10^n` has at most `n` decimal digits (at least one). */
  lemma {:induction false} DecimalLength(v: nat, n: nat)
    requires v < Pow10(n) && n >= 1
    ensures |Decimal(v)| <= n
    decreases n
  {
    if v >= 10 {
      assert v / 10 < Pow10(n - 1);
      DecimalLength(v / 10, n - 1);
    }
  }

  /** Padded text: exactly `minDigits` long when the value fits in that many
      digits, and it reads back as the value. */
  lemma LeftPadRoundTrip(v: nat, minDigits: nat)
    ensures ReadDigits(LeftPadZeros(v, minDigits), 10) == v
    ensures minDigits >= 1 && v < Pow10(minDigits) ==> |LeftPadZeros(v, minDigits)| == minDigits
  {
    var s := LeftPadZeros(v, minDigits);
    var d := Decimal(v);
    assert s == s[..|s| - |d|] + d;
    ReadAfterZeros(s[..|s| - |d|], d, 10);
    DigitsRoundTrip(v, 10);
    if minDigits >= 1 && v < Pow10(minDigits) {
      DecimalLength(v, minDigits);
    }
  }

  // ---------------------------------------------------------------------
  // Dates, times and offsets

  /** `print_to_stream(date)`: `YYYY-MM-DD`, each field zero-padded. */
  function DateText(d: Date): string
  {
    LeftPadZeros(d.year, 4) + "-" + LeftPadZeros(d.month, 2) + "-" + LeftPadZeros(d.day, 2)
  }

  /** A date whose fields fit their widths prints as exactly ten characters
      from which each field reads back. */
  lemma DateRoundTrip(d: Date)
    requires d.year < 10000 && d.month < 100 && d.day < 100
    ensures |DateText(d)| == 10
    ensures DateText(d)[4] == '-' && DateText(d)[7] == '-'
    ensures ReadDigits(DateText(d)[..4], 10) == d.year
    ensures ReadDigits(DateText(d)[5..7], 10) == d.month
    ensures ReadDigits(DateText(d)[8..], 10) == d.day
  {
    assert Pow10(4) == 10000 && Pow10(2) == 100;
    LeftPadRoundTrip(d.year, 4);
    LeftPadRoundTrip(d.month, 2);
    LeftPadRoundTrip(d.day, 2);
    Fields3(LeftPadZeros(d.year, 4), '-', LeftPadZeros(d.month, 2), '-', LeftPadZeros(d.day, 2));
  }

  /** Slicing three fields back out of `a + [x] + b + [y] + c`. */
  lemma Fields3(a: string, x: char, b: string, y: char, c: string)
    ensures var s := a + [x] + b + [y] + c;
            && |s| == |a| + |b| + |c| + 2
            && s[..|a|] == a
            && s[|a|] == x
            && s[|a| + 1..|a| + 1 + |b|] == b
            && s[|a| + 1 + |b|] == y
            && s[|a| + 2 + |b|..] == c
  {
  }

  lemma DateExample()
    ensures DateText(Date(1, 1, 1)) == "0001-01-01"
  {
    assert Decimal(1) == "1";
    assert LeftPadZeros(1, 4) == "0001";
    assert LeftPadZeros(1, 2) == "01";
  }

  /** The trailing-zero loop of the fraction printer: divides `ns` by ten
      and drops one digit from the width while the last digit is zero. */
  function TrimTrailingZeros(ns: nat, digits: nat): (r: (nat, nat))
    requires 0 < ns < Pow10(digits)
    ensures r.0 > 0 && r.0 % 10 != 0
    ensures 1 <= r.1 <= digits
    ensures r.0 < Pow10(r.1)
    ensures AppendZeros(r.0, digits - r.1) == ns
    decreases ns
  {
    if ns % 10 == 0 then
      assert digits >= 1;
      assert ns / 10 < Pow10(digits - 1);
      var r := TrimTrailingZeros(ns / 10, digits - 1);
      assert AppendZeros(r.0, digits - r.1) == 10 * AppendZeros(r.0, digits - 1 - r.1);
      r
    else
      assert digits >= 1;
      (ns, digits)
  }

  /** The fraction digits printed after `.` for `0 < ns <= 999999999`. */
  function FractionText(ns: nat): string
    requires 0 < ns <= 999_999_999
  {
    var r := TrimTrailingZeros(ns, 9);
    LeftPadZeros(r.0, r.1)
  }

  /** The fraction keeps its leading zeros, has no trailing zero, is one to
      nine digits long, and read as a decimal fraction equals `ns / 10^9`. */
  lemma FractionProperties(ns: nat)
    requires 0 < ns <= 999_999_999
    ensures 1 <= |FractionText(ns)| <= 9
    ensures FractionText(ns)[|FractionText(ns)| - 1] != '0'
    ensures AppendZeros(ReadDigits(FractionText(ns), 10), 9 - |FractionText(ns)|) == ns
  {
    assert Pow10(9) == 1_000_000_000;
    var r := TrimTrailingZeros(ns, 9);
    LeftPadRoundTrip(r.0, r.1);
    PaddedLastDigit(r.0, r.1);
  }

  /** The last decimal digit of `m` is `m % 10`. */
  lemma LastDigit(m: nat)
    ensures Decimal(m)[|Decimal(m)| - 1] == DigitChar(m % 10)
  {
  }

  /** Padding keeps a non-zero last digit last. */
  lemma PaddedLastDigit(m: nat, n: nat)
    requires m % 10 != 0
    ensures LeftPadZeros(m, n)[|LeftPadZeros(m, n)| - 1] != '0'
  {
    var d := Decimal(m);
    var s := LeftPadZeros(m, n);
    assert s[|s| - 1] == d[|d| - 1];
    LastDigit(m);
  }

  lemma FractionExample()
    ensures FractionText(120_000_000) == "12"
  {
    assert TrimTrailingZeros(120_000_000, 9) == (12, 2);
    assert Decimal(12) == Decimal(1) + [DigitChar(2)];
  }

  /** `print_to_stream(time)`: `HH:MM:SS`, then `.` and the fraction when
      the nanosecond count is non-zero and at most 999999999. */
  function TimeText(t: Time): string
  {
    LeftPadZeros(t.hour, 2) + ":" + LeftPadZeros(t.minute, 2) + ":" + LeftPadZeros(t.second, 2)
    + FractionSuffix(t.nanosecond)
  }

  /** The part of a time after the seconds. */
  function FractionSuffix(ns: nat): string
  {
    if ns != 0 && ns <= 999_999_999 then "." + FractionText(ns) else ""
  }

  /** Slicing a prefix and a suffix back out of `x + y`. */
  lemma Split(x: string, y: string)
    ensures (x + y)[..|x|] == x && (x + y)[|x|..] == y
    ensures |y| >= 1 ==> (x + y)[|x|] == y[0] && (x + y)[|x| + 1..] == y[1..]
  {
  }

  /** A time whose fields fit two digits reads back field by field, and has
      a fraction part exactly when the nanosecond count is in range. */
  lemma TimeRoundTrip(t: Time)
    requires t.hour < 100 && t.minute < 100 && t.second < 100
    ensures |TimeText(t)| >= 8
    ensures TimeText(t)[2] == ':' && TimeText(t)[5] == ':'
    ensures ReadDigits(TimeText(t)[..2], 10) == t.hour
    ensures ReadDigits(TimeText(t)[3..5], 10) == t.minute
    ensures ReadDigits(TimeText(t)[6..8], 10) == t.second
    ensures |TimeText(t)| > 8 <==> 0 < t.nanosecond <= 999_999_999
    ensures |TimeText(t)| > 8 ==>
              && TimeText(t)[8] == '.'
              && |TimeText(t)| <= 18
              && AppendZeros(ReadDigits(TimeText(t)[9..], 10), 18 - |TimeText(t)|) == t.nanosecond
  {
    assert Pow10(2) == 100;
    LeftPadRoundTrip(t.hour, 2);
    LeftPadRoundTrip(t.minute, 2);
    LeftPadRoundTrip(t.second, 2);
    var tail := FractionSuffix(t.nanosecond);
    ClockFields(LeftPadZeros(t.hour, 2), LeftPadZeros(t.minute, 2), LeftPadZeros(t.second, 2), tail);
    if 0 < t.nanosecond <= 999_999_999 {
      FractionProperties(t.nanosecond);
      assert tail[1..] == FractionText(t.nanosecond);
    }
  }

  /** Slicing `hh:mm:ss` and what follows back apart. */
  lemma ClockFields(hh: string, mm: string, ss: string, tail: string)
    requires |hh| == 2 && |mm| == 2 && |ss| == 2
    ensures var s := hh + ":" + mm + ":" + ss + tail;
            && |s| == 8 + |tail|
            && s[..2] == hh && s[2] == ':' && s[3..5] == mm && s[5] == ':' && s[6..8] == ss
            && s[8..] == tail
            && (|tail| >= 1 ==> s[8] == tail[0] && s[9..] == tail[1..])
  {
    var s := hh + ":" + mm + ":" + ss + tail;
    assert s[8..] == tail;
  }

  lemma TimeExample()
    ensures TimeText(Time(1, 2, 3, 0)) == "01:02:03"
  {
    assert Decimal(1) == "1" && Decimal(2) == "2" && Decimal(3) == "3";
  }

  /** `print_to_stream(time_offset)`: `Z` for zero; otherwise a sign, the
      hours (`00` when under an hour), `:` and the remaining minutes. */
  function OffsetText(o: TimeOffset): string
  {
    if o.minutes == 0 then "Z"
    else
      var sign := if o.minutes < 0 then '-' else '+';
      var mins := if o.minutes < 0 then -o.minutes else o.minutes;
      var hours := mins / 60;
      if hours != 0 then [sign] + LeftPadZeros(hours, 2) + ":" + LeftPadZeros(mins - hours * 60, 2)
      else [sign] + "00" + ":" + LeftPadZeros(mins, 2)
  }

  /** What reading an offset text back means: a sign that is `-` exactly
      for negative offsets, an hours field, `:` and a two-digit minutes field
      below sixty, with 60 * hours + minutes equal to the offset's magnitude. */
  predicate OffsetReadsBack(s: string, minutes: int)
  {
    && |s| >= 6
    && (s[0] == '-' <==> minutes < 0)
    && (s[0] == '+' <==> minutes > 0)
    && s[|s| - 3] == ':'
    && ReadDigits(s[|s| - 2..], 10) < 60
    && (minutes < 0 ==> 60 * ReadDigits(s[1..|s| - 3], 10) + ReadDigits(s[|s| - 2..], 10) == -minutes)
    && (minutes > 0 ==> 60 * ReadDigits(s[1..|s| - 3], 10) + ReadDigits(s[|s| - 2..], 10) == minutes)
  }

  lemma SignedFields(sign: char, hh: string, mm: string, minutes: int, h: nat, m: nat)
    requires |mm| == 2 && |hh| >= 2
    requires sign == if minutes < 0 then '-' else '+'
    requires minutes != 0
    requires ReadDigits(hh, 10) == h && ReadDigits(mm, 10) == m
    requires m < 60 && 60 * h + m == if minutes < 0 then -minutes else minutes
    ensures OffsetReadsBack([sign] + hh + ":" + mm, minutes)
  {
    var s := [sign] + hh + ":" + mm;
    assert s[1..|s| - 3] == hh;
    assert s[|s| - 2..] == mm;
  }

  /** An offset text is `Z` exactly for a zero offset and otherwise reads
      back as the stored minutes. */
  lemma OffsetRoundTrip(o: TimeOffset)
    ensures o.minutes == 0 <==> OffsetText(o) == "Z"
    ensures o.minutes != 0 ==> OffsetReadsBack(OffsetText(o), o.minutes)
  {
    if o.minutes != 0 {
      var mins: nat := if o.minutes < 0 then -o.minutes else o.minutes;
      if mins / 60 != 0 {
        OffsetWithHours(o, mins);
      } else {
        OffsetUnderAnHour(o, mins);
      }
    } else {
      assert OffsetText(o) == "Z";
    }
  }

  lemma OffsetWithHours(o: TimeOffset, mins: nat)
    requires o.minutes != 0 && mins == (if o.minutes < 0 then -o.minutes else o.minutes)
    requires mins / 60 != 0
    ensures OffsetReadsBack(OffsetText(o), o.minutes)
  {
    var sign := if o.minutes < 0 then '-' else '+';
    var hours := mins / 60;
    var rem := mins - hours * 60;
    assert Pow10(2) == 100;
    LeftPadRoundTrip(hours, 2);
    LeftPadRoundTrip(rem, 2);
    LeftPadShape(hours, 2);
    assert OffsetText(o) == [sign] + LeftPadZeros(hours, 2) + ":" + LeftPadZeros(rem, 2);
    SignedFields(sign, LeftPadZeros(hours, 2), LeftPadZeros(rem, 2), o.minutes, hours, rem);
  }

  lemma OffsetUnderAnHour(o: TimeOffset, mins: nat)
    requires o.minutes != 0 && mins == (if o.minutes < 0 then -o.minutes else o.minutes)
    requires mins / 60 == 0
    ensures OffsetReadsBack(OffsetText(o), o.minutes)
  {
    var sign := if o.minutes < 0 then '-' else '+';
    assert Pow10(2) == 100;
    LeftPadRoundTrip(mins, 2);
    ReadZeros("00", 10);
    assert OffsetText(o) == [sign] + "00" + ":" + LeftPadZeros(mins, 2);
    SignedFields(sign, "00", LeftPadZeros(mins, 2), o.minutes, 0, mins);
  }

  /** `print_to_stream(date_time)`: date, `T`, time, then the offset only
      when there is one. */
  function DateTimeText(d: Date, t: Time, offset: Option<TimeOffset>): string
  {
    DateText(d) + "T" + TimeText(t) + OptionalOffsetText(offset)
  }

  function OptionalOffsetText(offset: Option<TimeOffset>): string
  {
    match offset
    case Some(o) => OffsetText(o)
    case None => ""
  }

  /** A date-time with in-range fields is the ten-character date, `T`, the
      time, and then the offset text exactly when an offset is present: `Z`
      for a zero offset, otherwise a signed offset that reads back to the
      stored minutes. */
  lemma DateTimeLayout(d: Date, t: Time, offset: Option<TimeOffset>)
    requires d.year < 10000 && d.month < 100 && d.day < 100
    ensures DateTimeText(d, t, offset)[..10] == DateText(d)
    ensures DateTimeText(d, t, offset)[10] == 'T'
    ensures offset.None? ==> DateTimeText(d, t, offset)[11..] == TimeText(t)
    ensures offset.Some? ==> DateTimeText(d, t, offset)[11..] == TimeText(t) + OffsetText(offset.value)
    ensures offset.Some? ==>
              var tail := DateTimeText(d, t, offset)[11 + |TimeText(t)|..];
              && (offset.value.minutes == 0 <==> tail == "Z")
              && (offset.value.minutes != 0 ==> OffsetReadsBack(tail, offset.value.minutes))
  {
    DateRoundTrip(d);
    DateTimeSlices(DateText(d), TimeText(t), OptionalOffsetText(offset));
    if offset.Some? {
      OffsetRoundTrip(offset.value);
      var rest := TimeText(t) + OffsetText(offset.value);
      assert rest[|TimeText(t)|..] == OffsetText(offset.value);
    }
  }

  /** Slicing `date + "T" + time + offset` back apart. */
  lemma DateTimeSlices(date: string, time: string, offset: string)
    requires |date| == 10
    ensures var s := date + "T" + time + offset;
            && s[..10] == date
            && s[10] == 'T'
            && s[11..] == time + offset
            && (|offset| > 0 ==> s[|s| - 1] == offset[|offset| - 1])
  {
    var s := date + "T" + time + offset;
    assert s == date + ("T" + time + offset);
  }

  /** `print_to_stream(bool)`. */
  function BoolText(b: bool): (s: string)
    ensures s == "true" || s == "false"
    ensures s == "true" <==> b
  {
    if b then "true" else "false"
  }

  // ---------------------------------------------------------------------
  // Floats

  /** Whether `format & value_flags::format_as_hexadecimal` is non-zero: any
      of the two low bits set. */
  predicate HexFloatRequested(flags: nat)
  {
    flags % 4 != 0
  }

  /** The `needs_decimal_point` scan: true iff no `.`, `e` or `E` occurs. */
  function NeedsDecimalPoint(s: string): (r: bool)
    ensures r <==> forall i :: 0 <= i < |s| ==> s[i] != '.' && s[i] != 'e' && s[i] != 'E'
  {
    if |s| == 0 then true
    else if s[0] == '.' || s[0] == 'e' || s[0] == 'E' then false
    else NeedsDecimalPoint(s[1..])
  }

  /** `print_floating_point_to_stream`: the three special tokens, or the
      rendered text of a finite value followed by `.0` when it is decimal and
      would otherwise read as an integer. */
  function FloatText(f: Float, flags: nat): string
  {
    match f.cls
    case NegInf => "-inf"
    case PosInf => "inf"
    case NaN => "nan"
    case Finite =>
      var hex := HexFloatRequested(flags);
      var text := if hex then f.hexText else f.decimalText;
      if !hex && NeedsDecimalPoint(text) then text + ".0" else text
  }

  /** For a finite value `.0` is appended exactly when hexadecimal output is
      off and the rendered text has no `.`, `e` or `E`; either way the
      decimal result always contains one of them. */
  lemma FloatTextProperties(f: Float, flags: nat)
    requires f.cls == Finite
    ensures var text := if HexFloatRequested(flags) then f.hexText else f.decimalText;
            && (FloatText(f, flags) == text + ".0" <==>
                  !HexFloatRequested(flags) && forall i :: 0 <= i < |text| ==> text[i] !in ".eE")
            && (FloatText(f, flags) != text + ".0" ==> FloatText(f, flags) == text)
    ensures !HexFloatRequested(flags) ==>
              exists i :: 0 <= i < |FloatText(f, flags)| && FloatText(f, flags)[i] in ".eE"
  {
    var text := if HexFloatRequested(flags) then f.hexText else f.decimalText;
    var s := FloatText(f, flags);
    if !HexFloatRequested(flags) {
      if NeedsDecimalPoint(text) {
        assert s[|text|] == '.';
      } else {
        var i :| 0 <= i < |text| && text[i] in ".eE";
        assert s[i] in ".eE";
      }
    }
  }

  /** The special values print as `-inf`, `inf` and `nan`. */
  lemma SpecialFloatTokens(f: Float, flags: nat)
    ensures f.cls == NegInf ==> FloatText(f, flags) == "-inf"
    ensures f.cls == PosInf ==> FloatText(f, flags) == "inf"
    ensures f.cls == NaN ==> FloatText(f, flags) == "nan"
  {
  }
}
