/** The presentation helpers of the status bar: right-aligned padding, the
    two-digit clock, the byte and speed unit ladders, and the percentage column.

    Numbers that the source turns into text with `n + ""` are integers here, and
    `IntToString` is their decimal rendering. The floating-point parts
    (`toFixed` inside the unit ladder, `Math.round` in the percentage) are not
    rendered: the ladder reports the scaled value, and the percentage column
    takes the already rounded integer.
 */
module Format {
  import opened Wrappers
  import opened JsNumber

  // ---------------------------------------------------------------------------
  // Decimal text
  // ---------------------------------------------------------------------------

  predicate IsDigit(c: char) {
    '0' <= c <= '9'
  }

  predicate IsDigits(s: string) {
    forall k :: 0 <= k < |s| ==> IsDigit(s[k])
  }

  function DigitChar(d: nat): (c: char)
    requires d < 10
    ensures IsDigit(c)
  {
    "0123456789"[d]
  }

  function DigitValue(c: char): nat
    requires IsDigit(c)
  {
    (c as int) - ('0' as int)
  }

  /** The decimal rendering of a natural number, most significant digit first,
      without leading zeros. */
  function NatToString(n: nat): (r: string)
    ensures |r| >= 1 && IsDigits(r)
    ensures |r| == 1 <==> n < 10
    ensures |r| > 1 ==> r[0] != '0'
    decreases n
  {
    if n < 10 then [DigitChar(n)] else NatToString(n / 10) + [DigitChar(n % 10)]
  }

  /** JavaScript's `n + ""` for an integral number of magnitude below 10^21
      (from there on JavaScript switches to exponent notation). */
  function IntToString(n: int): string {
    if n < 0 then "-" + NatToString(-n) else NatToString(n)
  }

  /** The value a string of decimal digits denotes (the reading direction of
      `NatToString`). */
  function DecimalValue(s: string): nat
    requires IsDigits(s)
  {
    if |s| == 0 then 0 else DecimalValue(s[..|s| - 1]) * 10 + DigitValue(s[|s| - 1])
  }

  /** Reading back the decimal rendering gives the number. */
  lemma {:induction false} DecimalRoundTrip(n: nat)
    ensures DecimalValue(NatToString(n)) == n
    decreases n
  {
    if n >= 10 {
      var t := NatToString(n / 10);
      var r := NatToString(n);
      assert r == t + [DigitChar(n % 10)];
      assert r[..|r| - 1] == t;
      DecimalRoundTrip(n / 10);
    }
  }

  /** A non-empty digit string whose first digit is not zero denotes a positive number. */
  lemma {:induction false} LeadingDigitPositive(s: string)
    requires |s| >= 1 && IsDigits(s) && s[0] != '0'
    ensures DecimalValue(s) >= 1
    decreases |s|
  {
    if |s| > 1 {
      LeadingDigitPositive(s[..|s| - 1]);
    }
  }

  /** Rendering the value of a canonical digit string gives the string back:
      with `DecimalRoundTrip`, `NatToString` is a bijection onto such strings. */
  lemma {:induction false} NatToStringOfValue(s: string)
    requires |s| >= 1 && IsDigits(s)
    requires |s| > 1 ==> s[0] != '0'
    ensures NatToString(DecimalValue(s)) == s
    decreases |s|
  {
    if |s| > 1 {
      var p, c := s[..|s| - 1], s[|s| - 1];
      assert IsDigits(p) && p[0] == s[0];
      var v, a, d := DecimalValue(s), DecimalValue(p), DigitValue(c);
      assert v == a * 10 + d;
      LeadingDigitPositive(p);
      NatToStringOfValue(p);
      ShiftDigit(a, d);
      DigitCharOfValue(c);
      assert NatToString(v) == NatToString(a) + [DigitChar(d)];
      assert s == p + [c];
    }
  }

  lemma ShiftDigit(a: nat, d: nat)
    requires d < 10
    ensures (a * 10 + d) / 10 == a && (a * 10 + d) % 10 == d
  {
  }

  lemma DigitCharOfValue(c: char)
    requires IsDigit(c)
    ensures DigitValue(c) < 10 && DigitChar(DigitValue(c)) == c
  {
  }

  // ---------------------------------------------------------------------------
  // space and zero
  // ---------------------------------------------------------------------------

  /** `k` blanks (none when `k` is not positive). */
  function Blanks(k: int): (r: string)
    ensures |r| == if k > 0 then k else 0
    ensures forall j :: 0 <= j < |r| ==> r[j] == ' '
  {
    if k <= 0 then [] else [' '] + Blanks(k - 1)
  }

  /** `space(s, max)`: prepend one blank at a time until `s` is `max`
      characters long; a longer `s` is returned as it is. */
  function Space(s: string, max: int): (r: string)
    ensures |r| == if |s| >= max then |s| else max
    ensures r == Blanks(max - |s|) + s
    decreases max - |s|
  {
    if |s| >= max then s else Space(" " + s, max)
  }

  /** Leading blanks removed (the reading direction of `Space`). */
  function TrimLeft(s: string): (r: string)
    decreases |s|
  {
    if |s| > 0 && s[0] == ' ' then TrimLeft(s[1..]) else s
  }

  lemma {:induction false} TrimBlanks(k: int, s: string)
    requires |s| == 0 || s[0] != ' '
    ensures TrimLeft(Blanks(k) + s) == s
    decreases if k > 0 then k else 0
  {
    if k > 0 {
      assert (Blanks(k) + s)[1..] == Blanks(k - 1) + s;
      TrimBlanks(k - 1, s);
    }
  }

  /** Padding is undone by trimming: `s` stays a suffix and only blanks are added. */
  lemma SpaceRoundTrip(s: string, max: int)
    requires |s| == 0 || s[0] != ' '
    ensures TrimLeft(Space(s, max)) == s
    ensures Space(s, max)[|Space(s, max)| - |s|..] == s
  {
    TrimBlanks(max - |s|, s);
  }

  /** `zero(n)`: numbers below ten get a leading "0". */
  function Zero(n: int): string {
    if n < 10 then "0" + IntToString(n) else IntToString(n)
  }

  /** For a non-negative `n`, `zero(n)` is at least two digits, exactly two
      below 100, and reads back as `n`; the "0" is added exactly when n < 10. */
  lemma ZeroReadsBack(n: nat)
    ensures IsDigits(Zero(n)) && |Zero(n)| >= 2
    ensures |Zero(n)| == 2 <==> n < 100
    ensures DecimalValue(Zero(n)) == n
    ensures Zero(n)[0] == '0' <==> n < 10
  {
    DecimalRoundTrip(n);
    if n >= 10 {
      assert NatToString(n) == NatToString(n / 10) + [DigitChar(n % 10)];
    }
  }

  // ---------------------------------------------------------------------------
  // time
  // ---------------------------------------------------------------------------

  /** `Formatter.time(s)`: `None` is `undefined`. The two caps compare a count
      of seconds against 86400000 and 3600000. */
  function Time(s: Option<int>): (r: string)
    ensures s.None? ==> r == "--:--"
    ensures s.Some? && s.value >= 86400000 ==> r == " > 1d"
    ensures s.Some? && 3600000 <= s.value < 86400000 ==> r == " > 1h"
    ensures s.Some? && 0 <= s.value < 3600000 ==>
              r == ClockOf(s.value / 60, s.value % 60)
  {
    match s
    case None => "--:--"
    case Some(t) =>
      if t >= 86400000 then " > 1d"
      else if t >= 3600000 then " > 1h"
      else ClockOf(ToInt32(TruncDiv(t, 60)), ToInt32(TruncRem(t, 60)))
  }

  /** A negative time (an overshoot, or a wrapped estimate) is not clamped:
      both parts keep the sign of the input, and `zero` prefixes "0" to them. */
  lemma NegativeTime(t: int)
    requires -TwoTo31 <= t < 0
    ensures Time(Some(t)) == ClockOf(-((-t) / 60), -((-t) % 60))
  {
    var minutes, seconds := ToInt32(TruncDiv(t, 60)), ToInt32(TruncRem(t, 60));
    assert Time(Some(t)) == ClockOf(minutes, seconds);
    ClockParts(t);
  }

  /** `zero(min) + ":" + zero(sec)`. */
  function ClockOf(minutes: int, seconds: int): string {
    Zero(minutes) + ":" + Zero(seconds)
  }

  /** Minutes and seconds of a negative clock value: the magnitude's, with the
      sign put back, and never wrapped by `~~`. */
  lemma ClockParts(t: int)
    requires -TwoTo31 <= t < 0
    ensures ToInt32(TruncDiv(t, 60)) == -((-t) / 60)
    ensures ToInt32(TruncRem(t, 60)) == -((-t) % 60)
  {
    var q := TruncDiv(t, 60);
    assert Abs(q) == Abs(t) / 60;
    assert Abs(t) / 60 < TwoTo31;
    var m := TruncRem(t, 60);
    assert Abs(m) < 60;
    assert Abs(t) == -t;
    assert q <= 0;
    assert q == -((-t) / 60);
    assert m == -((-t) % 60);
  }


  /** Below the caps the clock reads back as the number of seconds: minutes
      (two digits or more), a colon, then exactly two digits of seconds. */
  lemma ClockReadsBack(t: int)
    requires 0 <= t < 3600000
    ensures var r := Time(Some(t));
            && |r| >= 5 && r[|r| - 3] == ':'
            && IsDigits(r[..|r| - 3]) && IsDigits(r[|r| - 2..])
            && DecimalValue(r[..|r| - 3]) * 60 + DecimalValue(r[|r| - 2..]) == t
            && DecimalValue(r[|r| - 2..]) < 60
            && (|r| == 5 <==> t < 6000)
  {
    var m, s := Zero(t / 60), Zero(t % 60);
    assert Time(Some(t)) == ClockOf(t / 60, t % 60) == m + ":" + s;
    ZeroReadsBack(t / 60);
    ZeroReadsBack(t % 60);
    SplitAtColon(m, s);
  }

  /** Less than a minute too many: the minutes truncate to 0 and the seconds
      keep their minus sign behind the "0" of `zero`, as in "00:0-15". */
  lemma NegativeUnderAMinute(t: int)
    requires -60 < t < 0
    ensures Time(Some(t)) == "00:0-" + NatToString(-t)
  {
    NegativeTime(t);
    assert -((-t) / 60) == 0 && -((-t) % 60) == t;
    assert Zero(0) == "00" by {
      assert NatToString(0) == "0";
    }
    assert Zero(t) == "0-" + NatToString(-t);
  }

  lemma SplitAtColon(m: string, s: string)
    requires |s| == 2
    ensures var r := m + ":" + s;
            && r[..|r| - 3] == m && r[|r| - 3] == ':' && r[|r| - 2..] == s
  {
  }

  /** The caps are compared against seconds, so an hour of seconds is still a
      clock ("60:00") and the " > 1h" cap starts at 1000 hours. */
  lemma TimeCapsAreInMilliseconds()
    ensures Time(Some(3599999)) != " > 1h"
    ensures Time(Some(3600)) == "60:00"
    ensures Time(Some(3600000)) == " > 1h"
  {
    LastClockIsNotCapped();
    AnHourIsAClock();
  }

  lemma LastClockIsNotCapped()
    ensures Time(Some(3599999)) != " > 1h"
  {
    ClockReadsBack(3599999);
    var r := Time(Some(3599999));
    assert r[|r| - 3] == ':';
    assert " > 1h"[2] != ':';
  }

  lemma AnHourIsAClock()
    ensures Time(Some(3600)) == "60:00"
  {
    assert Time(Some(3600)) == Zero(60) + ":" + Zero(0);
    assert Zero(0) == "00" by {
      assert NatToString(0) == "0";
    }
    assert Zero(60) == "60" by {
      assert NatToString(6) == "6";
      assert NatToString(60) == NatToString(6) + [DigitChar(0)];
    }
  }

  // ---------------------------------------------------------------------------
  // unit, storage, speed, percentage
  // ---------------------------------------------------------------------------

  const StorageUnits: seq<string> :=
    [" B  ", " KiB", " MiB", " GiB", " TiB", " PiB", " EiB", " ZiB", " YiB"]
  const SpeedUnits: seq<string> :=
    ["B/s", "K/s", "M/s", "G/s", "T/s", "P/s", "E/s", "Z/s", "Y/s"]

  function Pow(b: int, e: nat): int {
    if e == 0 then 1 else b * Pow(b, e - 1)
  }

  lemma {:induction false} PowPositive(b: int, e: nat)
    requires b >= 1
    ensures Pow(b, e) >= 1
  {
    if e > 0 {
      PowPositive(b, e - 1);
    }
  }

  /** What `unit` returns. `Exact` is fully determined text. `Scaled` is
      `space(value.toFixed(decimals), width) + suffix`, whose `toFixed`
      rendering is not modelled; `index` is the rung of the ladder. */
  datatype UnitText =
    | Exact(text: string)
    | Scaled(value: real, index: nat, width: nat, suffix: string)

  /** The column width `unit` pads to. */
  function Width(decimals: nat): nat {
    if decimals != 0 then 5 + decimals else 4
  }

  lemma MulLess(y: real, c: real, p: real)
    requires p > 0.0
    ensures y < c <==> y * p < c * p
  {
    if y < c {
      assert (c - y) * p > 0.0;
    } else {
      assert (y - c) * p >= 0.0;
    }
  }

  lemma DivDiv(a: real, b: real, c: real)
    requires b > 0.0 && c > 0.0
    ensures (a / b) / c == a / (b * c)
  {
    var z := a / (b * c);
    assert z * (b * c) == a;
    assert (z * c) * b == a;
    assert z * c == a / b;
  }

  /** The loop of `unit` divides `n` by `pow` once per rung and compares the
      quotient with `pow`. In exact arithmetic the i-th quotient is
      n / pow^i, and it is below `pow` exactly when n < pow^(i+1); the model
      of the loop below uses that integer comparison. */
  lemma RepeatedDivision(n: int, p: int, i: nat)
    requires p >= 2 && i >= 1
    ensures Pow(p, i - 1) > 0 && Pow(p, i) > 0
    ensures (n as real / Pow(p, i - 1) as real) / p as real == n as real / Pow(p, i) as real
    ensures n as real / Pow(p, i) as real < p as real <==> n < Pow(p, i + 1)
  {
    PowPositive(p, i - 1);
    PowPositive(p, i);
    PowAsReal(p, i);
    PowAsReal(p, i + 1);
    DivDiv(n as real, Pow(p, i - 1) as real, p as real);
    QuotientBelow(n as real, p as real, Pow(p, i) as real);
  }

  lemma PowAsReal(p: int, i: nat)
    requires i >= 1
    ensures Pow(p, i) as real == Pow(p, i - 1) as real * p as real
  {
    assert Pow(p, i) == Pow(p, i - 1) * p;
  }

  lemma QuotientBelow(a: real, c: real, b: real)
    requires b > 0.0
    ensures a / b < c <==> a < c * b
  {
    var y := a / b;
    assert y * b == a;
    MulLess(y, c, b);
  }

  /** The `while (i < 9)` loop of `unit`, entered at rung `i` with n >= pow^i. */
  function ScaleFrom(n: int, i: nat, units: seq<string>, pow: int, chars: nat)
    : (r: UnitText)
    requires 1 <= i <= 9 && pow >= 2 && |units| == 9
    requires Pow(pow, i) <= n
    ensures r.Scaled? <==> n < Pow(pow, 9)
    ensures r.Scaled? ==>
              && i <= r.index <= 8
              && Pow(pow, r.index) <= n < Pow(pow, r.index + 1)
              && r.value == n as real / Pow(pow, r.index) as real
              && r.suffix == units[r.index] && r.width == chars
    ensures r.Exact? ==> r.text == ">=" + IntToString(pow) + units[7]
    decreases 9 - i
  {
    if i == 9 then
      Exact(">=" + IntToString(pow) + units[7])
    else if n < Pow(pow, i + 1) then
      PowMonotone(pow, i + 1, 9);
      Scaled(n as real / Pow(pow, i) as real, i, chars, units[i])
    else
      ScaleFrom(n, i + 1, units, pow, chars)
  }

  /** `unit(n, arr, pow, decimals)`: the base suffix below `pow`; otherwise the
      rung i in 1..8 with pow^i <= n < pow^(i+1); beyond the ladder the
      fixed text ">=" + pow + arr[7]. */
  function Unit(n: int, units: seq<string>, pow: int, decimals: nat): (r: UnitText)
    requires pow >= 2 && |units| == 9
    ensures n < pow ==> r == Exact(Space(IntToString(n), Width(decimals)) + units[0])
    ensures r.Scaled? <==> pow <= n < Pow(pow, 9)
    ensures r.Scaled? ==>
              && 1 <= r.index <= 8
              && Pow(pow, r.index) <= n < Pow(pow, r.index + 1)
              && r.value == n as real / Pow(pow, r.index) as real
              && r.suffix == units[r.index] && r.width == Width(decimals)
    ensures n >= Pow(pow, 9) ==> r == Exact(">=" + IntToString(pow) + units[7])
  {
    var chars := Width(decimals);
    PowMonotone(pow, 1, 9);
    if n < pow then Exact(Space(IntToString(n), chars) + units[0])
    else ScaleFrom(n, 1, units, pow, chars)
  }

  /** The rung `unit` picks is unique: consecutive powers do not overlap. */
  lemma {:induction false} RungIsUnique(n: int, pow: int, i: nat, j: nat)
    requires pow >= 2
    requires Pow(pow, i) <= n < Pow(pow, i + 1)
    requires Pow(pow, j) <= n < Pow(pow, j + 1)
    ensures i == j
  {
    if i < j {
      PowMonotone(pow, i + 1, j);
    } else if j < i {
      PowMonotone(pow, j + 1, i);
    }
  }

  lemma {:induction false} PowMonotone(b: int, e1: nat, e2: nat)
    requires b >= 2 && e1 <= e2
    ensures Pow(b, e1) <= Pow(b, e2)
    decreases e2
  {
    if e1 < e2 {
      PowMonotone(b, e1, e2 - 1);
      PowPositive(b, e2 - 1);
    }
  }

  /** `Formatter.storage(b, decimals)`: `~~b` on the binary ladder, one decimal
      by default. */
  function Storage(b: int, decimals: Option<nat>): (r: UnitText)
    ensures -TwoTo31 <= b < 1024 ==>
              r == Exact(Space(IntToString(b), Width(decimals.GetOr(1))) + " B  ")
    ensures 1024 <= b < TwoTo31 ==>
              && r.Scaled? && 1 <= r.index <= 8
              && Pow(1024, r.index) <= b < Pow(1024, r.index + 1)
              && r.value == b as real / Pow(1024, r.index) as real
              && r.suffix == StorageUnits[r.index] && r.width == Width(decimals.GetOr(1))
    // `~~b` wraps a count of 2^31 bytes or more into a negative base-unit count.
    ensures TwoTo31 <= b < TwoTo32 ==>
              r == Exact(Space(IntToString(b - TwoTo32), Width(decimals.GetOr(1))) + " B  ")
  {
    LadderCoversInt32(1024);
    Unit(ToInt32(b), StorageUnits, 1024, decimals.GetOr(1))
  }

  /** `Formatter.speed(bps, decimals)`: `~~bps` on the decimal ladder. */
  function Speed(bps: int, decimals: Option<nat>): (r: UnitText)
    ensures -TwoTo31 <= bps < 1000 ==>
              r == Exact(Space(IntToString(bps), Width(decimals.GetOr(1))) + "B/s")
    ensures 1000 <= bps < TwoTo31 ==>
              && r.Scaled? && 1 <= r.index <= 8
              && Pow(1000, r.index) <= bps < Pow(1000, r.index + 1)
              && r.value == bps as real / Pow(1000, r.index) as real
              && r.suffix == SpeedUnits[r.index] && r.width == Width(decimals.GetOr(1))
    ensures TwoTo31 <= bps < TwoTo32 ==>
              r == Exact(Space(IntToString(bps - TwoTo32), Width(decimals.GetOr(1))) + "B/s")
  {
    LadderCoversInt32(1000);
    Unit(ToInt32(bps), SpeedUnits, 1000, decimals.GetOr(1))
  }

  /** Every 32-bit count lies below the top of both ladders, so the fallback
      text of `unit` is out of reach of `storage` and `speed`. */
  lemma LadderCoversInt32(pow: int)
    requires pow >= 1000
    ensures Pow(pow, 9) > TwoTo31
  {
    assert Pow(pow, 1) == pow;
    assert Pow(pow, 2) == pow * pow;
    assert Pow(pow, 3) == pow * Pow(pow, 2);
    assert Pow(pow, 4) == pow * Pow(pow, 3);
    assert Pow(pow, 2) >= 1000000;
    assert Pow(pow, 3) >= 1000000000;
    assert Pow(pow, 4) >= 1000000000000;
    PowMonotone(pow, 4, 9);
  }

  /** A three-gibibyte count wraps through `~~` to minus one gibibyte, shown
      in bytes. */
  lemma StorageWrapsPastInt32()
    ensures Storage(3221225472, None) ==
              Exact(Space(IntToString(-1073741824), 6) + " B  ")
  {
  }

  /** The byte ladder switches unit exactly at 1024: 1023 bytes stay in the base
      unit, 1024 bytes are 1.0 KiB. */
  lemma StorageSwitchesAt1024()
    ensures Storage(1023, None) == Exact(Space(NatToString(1023), 6) + " B  ")
    ensures |Storage(1023, None).text| == 10
    ensures Storage(1024, None) == Scaled(1.0, 1, 6, " KiB")
  {
    StorageOf1023();
    StorageOf1024();
  }

  /** 1023 bytes: four digits padded to six columns, then the base suffix. */
  lemma StorageOf1023()
    ensures Storage(1023, None) == Exact(Space(NatToString(1023), 6) + " B  ")
    ensures |Storage(1023, None).text| == 10
  {
    assert |NatToString(102)| == |NatToString(10)| + 1;
    assert |NatToString(1023)| == |NatToString(102)| + 1;
  }

  lemma StorageOf1024()
    ensures Storage(1024, None) == Scaled(1.0, 1, 6, " KiB")
  {
    var r := Storage(1024, None);
    assert r == Unit(1024, StorageUnits, 1024, 1);
    assert Pow(1024, 1) == 1024;
    assert Pow(1024, 2) == 1024 * 1024;
    PowMonotone(1024, 2, 9);
    assert r.Scaled?;
    RungIsUnique(1024, 1024, r.index, 1);
    assert r.index == 1;
    assert r.value == 1024.0 / 1024.0;
  }

  /** `Formatter.percentage`: the rounded percent and a "%" sign, right-aligned
      in four columns. The rounding itself is not modelled. */
  function Percentage(rounded: int): (r: string)
    ensures 0 <= rounded <= 100 ==> |r| == 4 && r[3] == '%'
  {
    var text := IntToString(rounded) + "%";
    assert 0 <= rounded <= 100 ==> |text| <= 4 by {
      if 0 <= rounded <= 100 && rounded >= 10 {
        assert NatToString(rounded) == NatToString(rounded / 10) + [DigitChar(rounded % 10)];
      }
    }
    Space(text, 4)
  }

  lemma DropSuffix(s: string, t: string)
    ensures (s + t)[..|s|] == s
  {
  }

  /** The percentage column reads back as the percent. */
  lemma PercentageReadsBack(p: nat)
    requires p <= 100
    ensures var r := Percentage(p);
            IsDigits(TrimLeft(r[..3])) && DecimalValue(TrimLeft(r[..3])) == p
  {
    var digits := NatToString(p);
    var r := Percentage(p);
    var text := digits + "%";
    var k := 4 - |text|;
    assert k >= 0 && |r| == 4;
    assert r == Blanks(k) + text;
    DropSuffix(Blanks(k) + digits, "%");
    assert r[..3] == Blanks(k) + digits;
    TrimBlanks(k, digits);
    DecimalRoundTrip(p);
  }
}
