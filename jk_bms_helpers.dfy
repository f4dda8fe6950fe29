/**
 * The value decoders of the JK battery driver (`jk_bms.h`): the sentinel temperature
 * encoding, the version-dependent sign of the current, the runtime text and the bit
 * test. Everything is on raw integers: degrees Celsius, 10 mA current units, seconds.
 */
module JkBmsHelpers {
  import opened Bytes
  import opened Bits

  // ---------------------------------------------------------------------------
  // Temperatures
  // ---------------------------------------------------------------------------

  /**
   * `get_temperature_`: raw values up to 100 are degrees Celsius as they are; above 100
   * the value is `100 - (int16_t) v`, so 101 means -1 C and 140 means -40 C. Raw values
   * of 0x8000 and above are negative as int16 and therefore come out above 100.
   */
  function GetTemperature(v: uint16): (r: int)
    ensures v <= 100 ==> r == v
    ensures 100 < v < 0x8000 ==> r == 100 - v && r < 0
    ensures 0x8000 <= v ==> r == 100 - (v - 0x1_0000) && r > 100
    ensures -32667 <= r <= 32868
  {
    if v > 100 then 100 - AsInt16(v) else v
  }

  /** The raw value that decodes to a temperature t (the inverse of GetTemperature). */
  function EncodeTemperature(t: int): (v: uint16)
    requires -32667 <= t <= 32868
  {
    if 0 <= t <= 100 then t
    else if t < 0 then 100 - t
    else 100 - t + 0x1_0000
  }

  /** Every raw value is recovered from its temperature: the decoding loses nothing. */
  lemma TemperatureRoundTrip(v: uint16)
    ensures EncodeTemperature(GetTemperature(v)) == v
  {
  }

  /** Every temperature in range has exactly the encoding EncodeTemperature gives it. */
  lemma TemperatureInverse(t: int)
    requires -32667 <= t <= 32868
    ensures GetTemperature(EncodeTemperature(t)) == t
  {
  }

  /** The examples of the driver's own comment: 99, 100, 101 and 140. */
  lemma TemperatureExamples()
    ensures GetTemperature(29) == 29 && GetTemperature(99) == 99 && GetTemperature(100) == 100
    ensures GetTemperature(101) == -1 && GetTemperature(140) == -40
  {
  }

  // ---------------------------------------------------------------------------
  // Current
  // ---------------------------------------------------------------------------

  const CurrentProtocolVersion: byte := 0x01

  /**
   * `get_current_`: only protocol version 0x01 is understood. There, bit 15 set
   * (`(v & 0x8000) == 0x8000`) means charging and the low 15 bits (`v & 0x7FFF`) are
   * the magnitude; bit 15 clear means discharging. Any other version gives 0.
   * For a 16-bit v, bit 15 is `v >= 0x8000` and the low 15 bits are `v % 0x8000`.
   */
  function GetCurrent(v: uint16, protocolVersion: byte): (r: int)
    ensures protocolVersion != CurrentProtocolVersion ==> r == 0
    ensures -0x7FFF <= r <= 0x7FFF
    ensures protocolVersion == CurrentProtocolVersion && r > 0 ==> v >= 0x8000
    ensures protocolVersion == CurrentProtocolVersion && r < 0 ==> v < 0x8000
    ensures protocolVersion == CurrentProtocolVersion ==> (if r < 0 then -r else r) == v % 0x8000
  {
    if protocolVersion == CurrentProtocolVersion then
      if v >= 0x8000 then v % 0x8000 else -(v % 0x8000)
    else 0
  }

  /** A raw value that decodes to current i under protocol version 0x01. */
  function EncodeCurrent(i: int): (v: uint16)
    requires -0x7FFF <= i <= 0x7FFF
  {
    if i > 0 then 0x8000 + i else -i
  }

  /** Encoding then decoding a current gives it back. */
  lemma CurrentRoundTrip(i: int)
    requires -0x7FFF <= i <= 0x7FFF
    ensures GetCurrent(EncodeCurrent(i), CurrentProtocolVersion) == i
  {
  }

  /** The only raw values that decode alike are the two zeros, 0x0000 and 0x8000. */
  lemma CurrentInjective(v: uint16, w: uint16)
    requires GetCurrent(v, CurrentProtocolVersion) == GetCurrent(w, CurrentProtocolVersion)
    ensures v == w || (v % 0x8000 == 0 && w % 0x8000 == 0)
  {
  }

  /** `std::max(0, current)`: the charging part of a signed current. */
  function ChargingPart(current: int): (r: nat)
    ensures current >= 0 ==> r == current
    ensures current <= 0 ==> r == 0
  {
    if current > 0 then current else 0
  }

  /** `std::abs(std::min(0, current))`: the discharging part of a signed current. */
  function DischargingPart(current: int): (r: nat)
    ensures current <= 0 ==> r == -current
    ensures current >= 0 ==> r == 0
  {
    if current < 0 then -current else 0
  }

  /** The two parts never flow at once and together give the signed current back. */
  lemma CurrentSplit(current: int)
    ensures ChargingPart(current) == 0 || DischargingPart(current) == 0
    ensures ChargingPart(current) - DischargingPart(current) == current
  {
  }

  // ---------------------------------------------------------------------------
  // Runtime text
  // ---------------------------------------------------------------------------

  const SecondsPerHour := 3600
  const SecondsPerDay := 24 * 3600
  /** A year of 365 days, as the driver counts it. */
  const SecondsPerYear := 24 * 3600 * 365

  /** `(int) v` for a 32-bit unsigned v on a two's-complement target. */
  function AsInt32(v: uint32): (r: int)
    ensures -0x8000_0000 <= r < 0x8000_0000
    ensures Wrap32(r) == v
  {
    if v < 0x8000_0000 then v else v - 0x1_0000_0000
  }

  /** C's `/` on int: the quotient truncated toward zero. */
  function CDiv(a: int, b: int): (q: int)
    requires b > 0
    ensures a >= 0 ==> q == a / b
  {
    if a >= 0 then a / b else -((-a) / b)
  }

  /** C's `%` on int: the remainder takes the sign of the dividend. */
  function CRem(a: int, b: int): (r: int)
    requires b > 0
    ensures CDiv(a, b) * b + r == a
    ensures -b < r < b
    ensures a >= 0 ==> 0 <= r
    ensures a <= 0 ==> r <= 0
  {
    if a >= 0 then a % b else -((-a) % b)
  }

  function DigitChar(d: nat): char
    requires d < 10
  {
    ['0', '1', '2', '3', '4', '5', '6', '7', '8', '9'][d]
  }

  /** `std::to_string` of a natural number: decimal digits, most significant first. */
  function NatToString(n: nat): (s: string)
    ensures |s| >= 1
    ensures forall i :: 0 <= i < |s| ==> '0' <= s[i] <= '9'
    decreases n
  {
    if n < 10 then [DigitChar(n)] else NatToString(n / 10) + [DigitChar(n % 10)]
  }

  /** `std::to_string` of an int: a minus sign before the digits of a negative value. */
  function IntToString(n: int): string {
    if n < 0 then "-" + NatToString(-n) else NatToString(n)
  }

  /** The value of a string of decimal digits: the reference reading for NatToString. */
  function DecimalValue(s: string): nat
    requires forall i :: 0 <= i < |s| ==> '0' <= s[i] <= '9'
    decreases |s|
  {
    if s == [] then 0 else DecimalValue(s[..|s| - 1]) * 10 + ((s[|s| - 1] as int) - ('0' as int))
  }

  /** The decimal text of n reads back as n. */
  lemma {:induction false} NatToStringRoundTrip(n: nat)
    ensures DecimalValue(NatToString(n)) == n
    decreases n
  {
    var s := NatToString(n);
    if n >= 10 {
      NatToStringRoundTrip(n / 10);
      assert s[..|s| - 1] == NatToString(n / 10);
    }
  }

  /**
   * `format_total_runtime_`: the value is read as an int, split into 365-day years,
   * days and hours with C division, and each nonzero part printed in turn as
   * "<y>y ", "<d>d " and "<h>h". Minutes and seconds are dropped.
   */
  function FormatTotalRuntime(value: uint32): string {
    var seconds := AsInt32(value);
    var years := CDiv(seconds, SecondsPerYear);
    var afterYears := CRem(seconds, SecondsPerYear);
    var days := CDiv(afterYears, SecondsPerDay);
    var afterDays := CRem(afterYears, SecondsPerDay);
    var hours := CDiv(afterDays, SecondsPerHour);
    (if years != 0 then IntToString(years) + "y " else "") +
    (if days != 0 then IntToString(days) + "d " else "") +
    (if hours != 0 then IntToString(hours) + "h" else "")
  }

  /** The years, days and hours FormatTotalRuntime prints for a value below 2^31. */
  datatype RuntimeParts = RuntimeParts(years: nat, days: nat, hours: nat, rest: nat)

  /** The unique decomposition of s into years, days below 365, hours below 24 and rest. */
  predicate IsRuntimeDecomposition(s: nat, p: RuntimeParts) {
    p.days < 365 && p.hours < 24 && p.rest < SecondsPerHour &&
    s == p.years * SecondsPerYear + p.days * SecondsPerDay + p.hours * SecondsPerHour + p.rest
  }

  function Text(n: nat, unit: string): string {
    if n != 0 then NatToString(n) + unit else ""
  }

  /**
   * For a value below 2^31 the text is the nonzero parts of the decomposition of the
   * value into 365-day years, days and hours, in that order.
   */
  lemma RuntimeText(value: uint32, p: RuntimeParts)
    requires value < 0x8000_0000
    requires IsRuntimeDecomposition(value, p)
    ensures FormatTotalRuntime(value) == Text(p.years, "y ") + Text(p.days, "d ") + Text(p.hours, "h")
  {
    var s: int := value;
    var inYear := p.days * SecondsPerDay + p.hours * SecondsPerHour + p.rest;
    var inDay := p.hours * SecondsPerHour + p.rest;
    assert AsInt32(value) == s;
    assert 0 <= inDay < SecondsPerDay;
    assert 0 <= inYear < SecondsPerYear;
    assert CDiv(s, SecondsPerYear) == p.years && CRem(s, SecondsPerYear) == inYear by {
      DivModOf(s, SecondsPerYear, p.years, inYear);
    }
    assert CDiv(inYear, SecondsPerDay) == p.days && CRem(inYear, SecondsPerDay) == inDay by {
      DivModOf(inYear, SecondsPerDay, p.days, inDay);
    }
    assert CDiv(inDay, SecondsPerHour) == p.hours by {
      DivModOf(inDay, SecondsPerHour, p.hours, p.rest);
    }
  }

  /** A negative part: a minus sign before its digits, then its unit; nothing when it is 0. */
  function NegativeText(n: nat, unit: string): string {
    if n != 0 then "-" + NatToString(n) + unit else ""
  }

  /**
   * From 2^31 up, `(int)` makes the seconds negative and C's `/` and `%` keep the sign:
   * the text is the nonzero parts of the decomposition of the magnitude 2^32 - value,
   * each with a minus sign, and there are at most 68 years of them.
   */
  lemma NegativeRuntimeText(value: uint32, p: RuntimeParts)
    requires value >= 0x8000_0000
    requires IsRuntimeDecomposition(0x1_0000_0000 - value, p)
    ensures p.years <= 68
    ensures FormatTotalRuntime(value) ==
      NegativeText(p.years, "y ") + NegativeText(p.days, "d ") + NegativeText(p.hours, "h")
  {
    var m: int := 0x1_0000_0000 - value;
    assert AsInt32(value) == -m && 0 < m <= 0x8000_0000;
    NegativeParts(m, p);
    YearsBound(m, p);
  }

  /** C's `/` and `%` on -m give the negated parts of the decomposition of m. */
  lemma NegativeParts(m: nat, p: RuntimeParts)
    requires IsRuntimeDecomposition(m, p)
    ensures CDiv(-(m as int), SecondsPerYear) == -(p.years as int)
    ensures CDiv(CRem(-(m as int), SecondsPerYear), SecondsPerDay) == -(p.days as int)
    ensures CDiv(CRem(CRem(-(m as int), SecondsPerYear), SecondsPerDay), SecondsPerHour) == -(p.hours as int)
  {
    var inYear: int := p.days * SecondsPerDay + p.hours * SecondsPerHour + p.rest;
    var inDay: int := p.hours * SecondsPerHour + p.rest;
    assert 0 <= inDay < SecondsPerDay;
    assert 0 <= inYear < SecondsPerYear;
    assert m / SecondsPerYear == p.years && m % SecondsPerYear == inYear by {
      DivModOf(m, SecondsPerYear, p.years, inYear);
    }
    assert CRem(-(m as int), SecondsPerYear) == -inYear;
    assert inYear / SecondsPerDay == p.days && inYear % SecondsPerDay == inDay by {
      DivModOf(inYear, SecondsPerDay, p.days, inDay);
    }
    assert CRem(-inYear, SecondsPerDay) == -inDay;
    assert inDay / SecondsPerHour == p.hours by {
      DivModOf(inDay, SecondsPerHour, p.hours, p.rest);
    }
  }

  /** At most 2^31 seconds hold at most 68 years of 365 days. */
  lemma YearsBound(m: nat, p: RuntimeParts)
    requires m <= 0x8000_0000 && IsRuntimeDecomposition(m, p)
    ensures p.years <= 68
  {
    if p.years > 68 {
      MultipleMonotone(p.years, 69, SecondsPerYear);
      assert false;
    }
  }

  lemma MultipleMonotone(k: int, j: int, d: int)
    requires k >= j && d > 0
    ensures k * d >= j * d
  {
    assert k * d == (k - j) * d + j * d;
    if k > j {
      MultipleAtLeast(k - j, d);
    }
  }

  /** Division of a non-negative number is determined by any quotient and remainder below the divisor. */
  lemma DivModOf(s: int, d: int, q: int, r: int)
    requires d > 0 && 0 <= r < d && s == q * d + r
    ensures s / d == q && s % d == r
  {
    var q', r' := s / d, s % d;
    assert s == q' * d + r' && 0 <= r' < d;
    assert (q - q') * d == r' - r && (q' - q) * d == r - r';
    if q > q' {
      MultipleAtLeast(q - q', d);
      assert false;
    } else if q < q' {
      MultipleAtLeast(q' - q, d);
      assert false;
    }
  }

  lemma MultipleAtLeast(k: int, d: int)
    requires k >= 1 && d > 0
    ensures k * d >= d
  {
  }

  /** Less than an hour prints nothing. */
  lemma RuntimeUnderAnHourIsEmpty(value: uint32)
    requires value < SecondsPerHour
    ensures FormatTotalRuntime(value) == ""
  {
    RuntimeText(value, RuntimeParts(0, 0, 0, value));
  }

  /** One year, one day, one hour and a bit: every part appears, in order. */
  lemma RuntimeExample()
    ensures FormatTotalRuntime(SecondsPerYear + SecondsPerDay + SecondsPerHour + 61) == "1y 1d 1h"
  {
    RuntimeText(SecondsPerYear + SecondsPerDay + SecondsPerHour + 61, RuntimeParts(1, 1, 1, 61));
  }

  // ---------------------------------------------------------------------------
  // Bit test
  // ---------------------------------------------------------------------------

  /** `check_bit_(mask, flag)`: `(mask & flag) == flag`. */
  function CheckBit(mask: uint16, flag: uint16): bool {
    And(mask, flag) == flag
  }

  /** check_bit_ holds exactly when every bit of flag is also set in mask. */
  lemma CheckBitIff(mask: uint16, flag: uint16)
    ensures CheckBit(mask, flag) ==> forall k: nat :: BitSet(flag, k) ==> BitSet(mask, k)
    ensures (forall k: nat :: BitSet(flag, k) ==> BitSet(mask, k)) ==> CheckBit(mask, flag)
  {
    if CheckBit(mask, flag) {
      forall k: nat | BitSet(flag, k) ensures BitSet(mask, k) {
        AndBit(mask, flag, k);
      }
    }
    if forall k: nat :: BitSet(flag, k) ==> BitSet(mask, k) {
      forall k: nat ensures BitSet(And(mask, flag), k) <==> BitSet(flag, k) {
        AndBit(mask, flag, k);
      }
      SameBitsEqual(And(mask, flag), flag);
    }
  }

  /** For a one-bit flag 2^k, check_bit_ reads bit k of the mask. */
  lemma CheckBitSingle(mask: uint16, k: nat)
    requires k < 16
    ensures Pow2(k) < 0x1_0000
    ensures CheckBit(mask, Pow2(k)) <==> BitSet(mask, k)
  {
    Pow2Below(k, 16);
    Pow2Sixteen();
    CheckBitIff(mask, Pow2(k));
    Pow2Bits(k, k);
    forall j: nat ensures BitSet(Pow2(k), j) <==> j == k { Pow2Bits(k, j); }
  }

  lemma Pow2Sixteen()
    ensures Pow2(16) == 0x1_0000
  {
    assert Pow2(1) == 2 && Pow2(2) == 4 && Pow2(3) == 8 && Pow2(4) == 16;
    assert Pow2(8) == 256 by {
      assert Pow2(5) == 32 && Pow2(6) == 64 && Pow2(7) == 128;
    }
    assert Pow2(12) == 4096 by {
      assert Pow2(9) == 512 && Pow2(10) == 1024 && Pow2(11) == 2048;
    }
    assert Pow2(13) == 8192 && Pow2(14) == 16384 && Pow2(15) == 32768;
  }

  lemma {:induction false} Pow2Below(k: nat, n: nat)
    requires k < n
    ensures Pow2(k) < Pow2(n)
    decreases n
  {
    if k < n - 1 { Pow2Below(k, n - 1); }
  }

  /** The mode flags 1, 2 and 4 read bits 0, 1 and 2. */
  lemma ModeFlagBits(mask: uint16)
    ensures CheckBit(mask, 1) <==> BitSet(mask, 0)
    ensures CheckBit(mask, 2) <==> BitSet(mask, 1)
    ensures CheckBit(mask, 4) <==> BitSet(mask, 2)
  {
    CheckBitSingle(mask, 0);
    CheckBitSingle(mask, 1);
    CheckBitSingle(mask, 2);
  }
}
