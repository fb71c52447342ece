/** Instants as the store writes them (RFC 3339 in UTC, fraction trimmed of trailing
    zeros) and as SQLite compares them (byte by byte). */
module Timestamps {
  const NANOS_PER_SECOND := 1_000_000_000

  /** A UTC instant in civil fields. */
  datatype Instant = Instant(year: nat, month: nat, day: nat, hour: nat, minute: nat, second: nat, nano: nat)

  predicate Leap(year: nat) {
    year % 4 == 0 && (year % 100 != 0 || year % 400 == 0)
  }

  function DaysInYear(year: nat): nat {
    if Leap(year) then 366 else 365
  }

  function DaysInMonth(year: nat, month: nat): nat {
    if month == 2 then (if Leap(year) then 29 else 28)
    else if month in {4, 6, 9, 11} then 30
    else 31
  }

  /** A date and time whose year has four digits. */
  predicate Valid(t: Instant) {
    && t.year <= 9999 && 1 <= t.month <= 12 && 1 <= t.day <= DaysInMonth(t.year, t.month)
    && t.hour < 24 && t.minute < 60 && t.second < 60 && t.nano < NANOS_PER_SECOND
  }

  function DaysBeforeYear(year: nat): nat {
    if year == 0 then 0 else DaysBeforeYear(year - 1) + DaysInYear(year - 1)
  }

  function DaysBeforeMonth(year: nat, month: nat): nat {
    if month <= 1 then 0 else DaysBeforeMonth(year, month - 1) + DaysInMonth(year, month - 1)
  }

  /** Days since 0000-01-01, plus one. */
  function DayNumber(t: Instant): nat {
    DaysBeforeYear(t.year) + DaysBeforeMonth(t.year, t.month) + t.day
  }

  function Seconds(t: Instant): nat {
    ((DayNumber(t) * 24 + t.hour) * 60 + t.minute) * 60 + t.second
  }

  /** Where the instant lies on the time line. */
  function Nanos(t: Instant): nat {
    Seconds(t) * NANOS_PER_SECOND + t.nano
  }

  // Rendering.

  function Digit(n: nat): char
    requires n < 10
  {
    '0' + n as char
  }

  function Digits(n: nat, width: nat): (s: string)
    ensures |s| == width
    ensures forall i | 0 <= i < width :: '0' <= s[i] <= '9'
  {
    if width == 0 then "" else Digits(n / 10, width - 1) + [Digit(n % 10)]
  }

  datatype Field = Field(width: nat, separator: string)

  function Render(values: seq<nat>, layout: seq<Field>): string
    requires |values| == |layout|
  {
    if values == [] then ""
    else Digits(values[0], layout[0].width) + (layout[0].separator + Render(values[1..], layout[1..]))
  }

  const LAYOUT := [Field(4, "-"), Field(2, "-"), Field(2, "T"), Field(2, ":"), Field(2, ":"), Field(2, "")]

  function CivilFields(t: Instant): seq<nat> {
    [t.year, t.month, t.day, t.hour, t.minute, t.second]
  }

  function TrimZeros(s: string): string {
    if s != "" && s[|s| - 1] == '0' then TrimZeros(s[..|s| - 1]) else s
  }

  /** The fraction's significant digits. */
  function Fraction(nano: nat): string {
    TrimZeros(Digits(nano, 9))
  }

  function Dotted(f: string): string {
    if f == "" then "" else "." + f
  }

  function FractionText(nano: nat): string {
    Dotted(Fraction(nano))
  }

  /** formatQueueTime. */
  function Format(t: Instant): string {
    Render(CivilFields(t), LAYOUT) + FractionText(t.nano) + "Z"
  }

  // SQLite's comparison of two texts.

  predicate Less(a: string, b: string) {
    b != "" && (a == "" || a[0] < b[0] || (a[0] == b[0] && Less(a[1..], b[1..])))
  }

  /** `x <= y` on two stored times. */
  predicate SqlAtMost(x: Instant, y: Instant) {
    Format(x) == Format(y) || Less(Format(x), Format(y))
  }

  predicate ProperPrefix(a: string, b: string) {
    |a| < |b| && a == b[..|a|]
  }

  lemma {:induction false} LessAfterPrefix(p: string, a: string, b: string)
    ensures Less(p + a, p + b) == Less(a, b)
  {
    if p == "" {
      assert p + a == a && p + b == b;
    } else {
      LessAfterPrefix(p[1..], a, b);
      assert (p + a)[1..] == p[1..] + a && (p + b)[1..] == p[1..] + b;
    }
  }

  lemma {:induction false} LessBeforeSuffix(a: string, b: string, x: string, y: string)
    requires |a| == |b| && a != b
    ensures Less(a + x, b + y) == Less(a, b)
  {
    assert (a + x)[1..] == a[1..] + x && (b + y)[1..] == b[1..] + y;
    if a[0] == b[0] {
      assert a == [a[0]] + a[1..] && b == [b[0]] + b[1..];
      LessBeforeSuffix(a[1..], b[1..], x, y);
    }
  }

  /** Comparing two texts whose first parts have the same length. */
  lemma LessInParts(a: string, b: string, x: string, y: string)
    requires |a| == |b|
    ensures a + x == b + y <==> a == b && x == y
    ensures Less(a + x, b + y) == if a == b then Less(x, y) else Less(a, b)
  {
    assert (a + x)[..|a|] == a && (b + y)[..|b|] == b;
    assert (a + x)[|a|..] == x && (b + y)[|b|..] == y;
    if a == b {
      LessAfterPrefix(a, x, y);
    } else {
      LessBeforeSuffix(a, b, x, y);
    }
  }

  lemma {:induction false} LessIsTotal(a: string, b: string)
    ensures (Less(a, b) || Less(b, a)) == (a != b)
    ensures !(Less(a, b) && Less(b, a))
  {
    if a != "" && b != "" {
      assert a == [a[0]] + a[1..] && b == [b[0]] + b[1..];
      LessIsTotal(a[1..], b[1..]);
    }
  }

  // Numbers of one width are ordered as their digits are.

  function Power10(w: nat): nat {
    if w == 0 then 1 else 10 * Power10(w - 1)
  }

  lemma {:induction false} DigitsOrder(m: nat, n: nat, width: nat)
    requires m < Power10(width) && n < Power10(width)
    ensures Less(Digits(m, width), Digits(n, width)) <==> m < n
    ensures Digits(m, width) == Digits(n, width) ==> m == n
  {
    if width > 0 {
      DigitsOrder(m / 10, n / 10, width - 1);
      LessInParts(Digits(m / 10, width - 1), Digits(n / 10, width - 1), [Digit(m % 10)], [Digit(n % 10)]);
      assert [Digit(m % 10)] == [Digit(n % 10)] <==> Digit(m % 10) == Digit(n % 10);
    }
  }

  predicate InRange(values: seq<nat>, layout: seq<Field>) {
    |values| == |layout| && forall i | 0 <= i < |values| :: values[i] < Power10(layout[i].width)
  }

  predicate Earlier(a: seq<nat>, b: seq<nat>)
    requires |a| == |b|
  {
    a != [] && (a[0] < b[0] || (a[0] == b[0] && Earlier(a[1..], b[1..])))
  }

  /** Comparing two fields of one width, the same separator, and what follows. */
  lemma FieldOrder(x: string, y: string, separator: string, x': string, y': string)
    requires |x| == |y|
    ensures x + (separator + x') == y + (separator + y') <==> x == y && x' == y'
    ensures Less(x + (separator + x'), y + (separator + y')) == if x == y then Less(x', y') else Less(x, y)
  {
    LessInParts(x, y, separator + x', separator + y');
    LessInParts(separator, separator, x', y');
  }

  lemma {:induction false} RenderOrder(a: seq<nat>, b: seq<nat>, layout: seq<Field>)
    requires InRange(a, layout) && InRange(b, layout)
    ensures |Render(a, layout)| == |Render(b, layout)|
    ensures Render(a, layout) == Render(b, layout) ==> a == b
    ensures Less(Render(a, layout), Render(b, layout)) <==> Earlier(a, b)
  {
    if a != [] {
      RenderOrder(a[1..], b[1..], layout[1..]);
      DigitsOrder(a[0], b[0], layout[0].width);
      FieldOrder(Digits(a[0], layout[0].width), Digits(b[0], layout[0].width), layout[0].separator,
                 Render(a[1..], layout[1..]), Render(b[1..], layout[1..]));
      assert a == [a[0]] + a[1..] && b == [b[0]] + b[1..];
    }
  }

  // The calendar is monotone.

  lemma {:induction false} MonthsAddUp(year: nat, m: nat, n: nat)
    requires 1 <= m < n <= 13
    ensures DaysBeforeMonth(year, m) + DaysInMonth(year, m) <= DaysBeforeMonth(year, n)
  {
    if m + 1 < n {
      MonthsAddUp(year, m, n - 1);
    }
  }

  lemma YearHasItsMonths(year: nat)
    ensures DaysBeforeMonth(year, 13) == DaysInYear(year)
  {
    assert DaysBeforeMonth(year, 2) == 31;
    assert DaysBeforeMonth(year, 4) == DaysInYear(year) - 275;
    assert DaysBeforeMonth(year, 5) == DaysInYear(year) - 245;
    assert DaysBeforeMonth(year, 7) == DaysInYear(year) - 184;
    assert DaysBeforeMonth(year, 8) == DaysInYear(year) - 153;
    assert DaysBeforeMonth(year, 10) == DaysInYear(year) - 92;
    assert DaysBeforeMonth(year, 11) == DaysInYear(year) - 61;
  }

  lemma {:induction false} YearsAddUp(y: nat, z: nat)
    requires y < z
    ensures DaysBeforeYear(y) + DaysInYear(y) <= DaysBeforeYear(z)
  {
    if y + 1 < z {
      YearsAddUp(y, z - 1);
    }
  }

  lemma {:induction false} FirstDifference(a: seq<nat>, b: seq<nat>) returns (k: nat)
    requires |a| == |b| && Earlier(a, b)
    ensures k < |a| && a[..k] == b[..k] && a[k] < b[k]
  {
    if a[0] < b[0] {
      k := 0;
    } else {
      k := FirstDifference(a[1..], b[1..]);
      assert a[..k + 1] == [a[0]] + a[1..][..k] && b[..k + 1] == [b[0]] + b[1..][..k];
      k := k + 1;
    }
  }

  lemma DayOrder(a: Instant, b: Instant)
    requires Valid(a) && Valid(b)
    requires a.year < b.year || (a.year == b.year && (a.month < b.month || (a.month == b.month && a.day < b.day)))
    ensures DayNumber(a) < DayNumber(b)
  {
    if a.year < b.year {
      MonthsAddUp(a.year, a.month, 13);
      YearHasItsMonths(a.year);
      YearsAddUp(a.year, b.year);
    } else if a.month < b.month {
      MonthsAddUp(a.year, a.month, b.month);
    }
  }

  lemma EarlierIsFewerSeconds(a: Instant, b: Instant)
    requires Valid(a) && Valid(b) && Earlier(CivilFields(a), CivilFields(b))
    ensures Seconds(a) < Seconds(b)
  {
    var x, y := CivilFields(a), CivilFields(b);
    var k := FirstDifference(x, y);
    assert forall i | 0 <= i < k :: x[i] == x[..k][i] == y[..k][i] == y[i];
    assert x[0] == a.year && x[1] == a.month && x[2] == a.day && x[3] == a.hour && x[4] == a.minute && x[5] == a.second;
    assert y[0] == b.year && y[1] == b.month && y[2] == b.day && y[3] == b.hour && y[4] == b.minute && y[5] == b.second;
    if k <= 2 {
      DayOrder(a, b);
    }
  }

  lemma {:induction false} EarlierIsTotal(a: seq<nat>, b: seq<nat>)
    requires |a| == |b|
    ensures a == b || Earlier(a, b) || Earlier(b, a)
  {
    if a != [] {
      EarlierIsTotal(a[1..], b[1..]);
      assert a == [a[0]] + a[1..] && b == [b[0]] + b[1..];
    }
  }

  // Fractions.

  function Zeros(n: nat): string {
    seq(n, _ => '0')
  }

  /** All digits, and none of the trailing ones is a zero. */
  predicate Trimmed(s: string) {
    && (forall i | 0 <= i < |s| :: '0' <= s[i] <= '9')
    && (s != "" ==> s[|s| - 1] != '0')
  }

  lemma {:induction false} TrimIsTrimmed(s: string)
    requires forall i | 0 <= i < |s| :: '0' <= s[i] <= '9'
    ensures var t := TrimZeros(s);
            Trimmed(t) && |t| <= |s| && s == t + Zeros(|s| - |t|)
  {
    if s != "" && s[|s| - 1] == '0' {
      TrimIsTrimmed(s[..|s| - 1]);
    }
  }

  lemma {:induction false} ZerosAreLeast(s: string)
    requires s != "" && Trimmed(s)
    ensures forall x: string, n: nat | n >= 1 :: Less(Zeros(n), s + x)
  {
    forall x: string, n: nat | n >= 1 ensures Less(Zeros(n), s + x) {
      if s[0] == '0' {
        ZerosAreLeast(s[1..]);
        assert Zeros(n)[1..] == Zeros(n - 1) && (s + x)[1..] == s[1..] + x;
      }
    }
  }

  lemma Shift(f: string, tail: string)
    requires f != ""
    ensures (f + tail)[1..] == f[1..] + tail && f == [f[0]] + f[1..]
  {
  }

  /** A trimmed fraction that another extends is the smaller number, but the text that
      ends in 'Z' sooner sorts after the longer one. */
  lemma {:induction false} ExtensionOrder(f: string, g: string, m: nat, n: nat)
    requires Trimmed(f) && Trimmed(g) && |f| + m == |g| + n && ProperPrefix(f, g)
    ensures Less(f + Zeros(m), g + Zeros(n)) && Less(g + "Z", f + "Z")
  {
    var rest := g[|f|..];
    assert g + Zeros(n) == f + (rest + Zeros(n)) && g + "Z" == f + (rest + "Z");
    ZerosAreLeast(rest);
    LessAfterPrefix(f, Zeros(m), rest + Zeros(n));
    LessAfterPrefix(f, rest + "Z", "Z");
  }

  /** Two trimmed fractions neither of which extends the other keep their order. */
  lemma {:induction false} DivergenceOrder(f: string, g: string, m: nat, n: nat)
    requires |f| + m == |g| + n && f != g && !ProperPrefix(f, g) && !ProperPrefix(g, f)
    ensures Less(f + Zeros(m), g + Zeros(n)) == Less(f + "Z", g + "Z")
  {
    assert f != "" && g != "";
    Shift(f, Zeros(m));
    Shift(f, "Z");
    Shift(g, Zeros(n));
    Shift(g, "Z");
    if f[0] == g[0] {
      DivergenceOrder(f[1..], g[1..], m, n);
    }
  }

  predicate Nested(f: string, g: string) {
    ProperPrefix(f, g) || ProperPrefix(g, f)
  }

  lemma FractionOrder(f: string, g: string, m: nat, n: nat)
    requires Trimmed(f) && Trimmed(g) && f != g && |f| + m == |g| + n
    ensures Less(f + "Z", g + "Z") == Less(f + Zeros(m), g + Zeros(n)) <==> !Nested(f, g)
  {
    LessIsTotal(f + Zeros(m), g + Zeros(n));
    LessIsTotal(f + "Z", g + "Z");
    if ProperPrefix(f, g) {
      ExtensionOrder(f, g, m, n);
    } else if ProperPrefix(g, f) {
      ExtensionOrder(g, f, n, m);
    } else {
      DivergenceOrder(f, g, m, n);
    }
  }

  /** The texts of fractions f and g are in the order of x and y, unless they nest. */
  predicate OrderedUnlessNested(f: string, g: string, x: string, y: string) {
    && Dotted(f) != Dotted(g)
    && (Less(Dotted(f) + "Z", Dotted(g) + "Z") == Less(x, y) <==> !Nested(f, g))
  }

  lemma PaddedOrder(f: string, g: string, x: string, y: string)
    requires Trimmed(f) && Trimmed(g) && |f| <= |x| == |y| && |g| <= |y| && x != y
    requires x == f + Zeros(|x| - |f|) && y == g + Zeros(|y| - |g|)
    ensures OrderedUnlessNested(f, g, x, y)
  {
    DotIsHarmless(f, g);
    FractionOrder(f, g, |x| - |f|, |y| - |g|);
  }

  /** The texts of two digit strings of one length, once trimmed. */
  lemma TrimmedOrder(x: string, y: string)
    requires |x| == |y| && x != y
    requires (forall i | 0 <= i < |x| :: '0' <= x[i] <= '9') && (forall i | 0 <= i < |y| :: '0' <= y[i] <= '9')
    ensures OrderedUnlessNested(TrimZeros(x), TrimZeros(y), x, y)
  {
    TrimIsTrimmed(x);
    TrimIsTrimmed(y);
    PaddedOrder(TrimZeros(x), TrimZeros(y), x, y);
  }

  lemma FractionTextOrder(m: nat, n: nat)
    requires m < NANOS_PER_SECOND && n < NANOS_PER_SECOND && m != n
    ensures FractionText(m) != FractionText(n)
    ensures Less(FractionText(m) + "Z", FractionText(n) + "Z") == (m < n) <==> !Nested(Fraction(m), Fraction(n))
  {
    BillionIsPower();
    DigitsOrder(m, n, 9);
    TrimmedOrder(Digits(m, 9), Digits(n, 9));
  }

  lemma BillionIsPower()
    ensures Power10(9) == NANOS_PER_SECOND
  {
  }

  lemma DotIsHarmless(f: string, g: string)
    requires Trimmed(f) && Trimmed(g) && f != g
    ensures Dotted(f) != Dotted(g)
    ensures Less(Dotted(f) + "Z", Dotted(g) + "Z") == Less(f + "Z", g + "Z")
  {
    if f != "" && g != "" {
      LessInParts(".", ".", f, g);
      LessInParts(".", ".", f + "Z", g + "Z");
      assert Dotted(f) + "Z" == "." + (f + "Z") && Dotted(g) + "Z" == "." + (g + "Z");
    }
  }

  // The order of stored times.

  lemma FormatInParts(t: Instant, head: string, tail: string)
    requires head == Render(CivilFields(t), LAYOUT) && tail == FractionText(t.nano) + "Z"
    ensures Format(t) == head + tail
  {
  }

  /** Instants in different seconds compare as their texts do, and so does equality. */
  lemma TextOrderAcrossSeconds(a: Instant, b: Instant)
    requires Valid(a) && Valid(b) && Seconds(a) != Seconds(b)
    ensures Less(Format(a), Format(b)) <==> Nanos(a) < Nanos(b)
    ensures Format(a) != Format(b)
  {
    var x, y := CivilFields(a), CivilFields(b);
    CivilInRange(a);
    CivilInRange(b);
    RenderOrder(x, y, LAYOUT);
    EarlierIsTotal(x, y);
    FormatInParts(a, Render(x, LAYOUT), FractionText(a.nano) + "Z");
    FormatInParts(b, Render(y, LAYOUT), FractionText(b.nano) + "Z");
    LessInParts(Render(x, LAYOUT), Render(y, LAYOUT), FractionText(a.nano) + "Z", FractionText(b.nano) + "Z");
    if Earlier(x, y) {
      EarlierIsFewerSeconds(a, b);
    } else if Earlier(y, x) {
      EarlierIsFewerSeconds(b, a);
    } else {
      SameCivilFields(a, b);
    }
  }

  lemma SameCivilFields(a: Instant, b: Instant)
    requires Valid(a) && Valid(b)
    ensures CivilFields(a) == CivilFields(b) <==> Seconds(a) == Seconds(b)
  {
    var x, y := CivilFields(a), CivilFields(b);
    if x == y {
      assert x[0] == y[0] && x[1] == y[1] && x[2] == y[2] && x[3] == y[3] && x[4] == y[4] && x[5] == y[5];
    } else {
      EarlierIsTotal(x, y);
      if Earlier(x, y) {
        EarlierIsFewerSeconds(a, b);
      } else {
        EarlierIsFewerSeconds(b, a);
      }
    }
  }

  lemma CivilInRange(t: Instant)
    requires Valid(t)
    ensures InRange(CivilFields(t), LAYOUT)
  {
  }

  /** Within one second the text order is wrong exactly when one trimmed fraction is a
      proper prefix of the other. */
  lemma TextOrderWithinASecond(a: Instant, b: Instant)
    requires Valid(a) && Valid(b) && Seconds(a) == Seconds(b) && a != b
    ensures Format(a) != Format(b)
    ensures (Less(Format(a), Format(b)) <==> Nanos(a) < Nanos(b))
            <==> !Nested(Fraction(a.nano), Fraction(b.nano))
  {
    SameCivilFields(a, b);
    var head := Render(CivilFields(a), LAYOUT);
    FormatInParts(a, head, FractionText(a.nano) + "Z");
    FormatInParts(b, head, FractionText(b.nano) + "Z");
    LessInParts(head, head, FractionText(a.nano) + "Z", FractionText(b.nano) + "Z");
    var x, y := CivilFields(a), CivilFields(b);
    assert x[0] == y[0] && x[1] == y[1] && x[2] == y[2] && x[3] == y[3] && x[4] == y[4] && x[5] == y[5];
    FractionTextOrder(a.nano, b.nano);
    assert (FractionText(a.nano) + "Z")[..|FractionText(a.nano)|] == FractionText(a.nano);
    assert (FractionText(b.nano) + "Z")[..|FractionText(b.nano)|] == FractionText(b.nano);
  }

  lemma RenderStep(v: nat, values: seq<nat>, field: Field, layout: seq<Field>)
    requires |values| == |layout|
    ensures Render([v] + values, [field] + layout)
         == Digits(v, field.width) + (field.separator + Render(values, layout))
  {
    assert ([v] + values)[1..] == values && ([field] + layout)[1..] == layout;
  }

  /** The texts have the form of section 5.6 of RFC 3339. */
  lemma FormatLooksLike(t: Instant)
    ensures Format(t) ==
              (Digits(t.year, 4) + ("-" + (Digits(t.month, 2) + ("-" + (Digits(t.day, 2) + ("T" + (Digits(t.hour, 2)
              + (":" + (Digits(t.minute, 2) + (":" + (Digits(t.second, 2) + ("" + ""))))))))))))
              + FractionText(t.nano) + "Z"
  {
    var s, h := Field(2, ""), Field(2, ":");
    RenderStep(t.second, [], s, []);
    RenderStep(t.minute, [t.second], h, [s]);
    RenderStep(t.hour, [t.minute, t.second], h, [h, s]);
    RenderStep(t.day, [t.hour, t.minute, t.second], Field(2, "T"), [h, h, s]);
    RenderStep(t.month, [t.day, t.hour, t.minute, t.second], Field(2, "-"), [Field(2, "T"), h, h, s]);
    RenderStep(t.year, [t.month, t.day, t.hour, t.minute, t.second], Field(4, "-"),
               [Field(2, "-"), Field(2, "T"), h, h, s]);
  }

  /** No two instants share a text. */
  lemma FormatInjective(a: Instant, b: Instant)
    requires Valid(a) && Valid(b) && Format(a) == Format(b)
    ensures a == b
  {
    if a != b {
      if Seconds(a) == Seconds(b) {
        TextOrderWithinASecond(a, b);
      } else {
        TextOrderAcrossSeconds(a, b);
      }
    }
  }

  /** Every due, lease or expiry test `x <= now` is exact unless both lie in one second
      and their fractions nest; when it is wrong, it is off by less than a second. */
  lemma SqlTestIsOffByLessThanASecond(x: Instant, now: Instant)
    requires Valid(x) && Valid(now)
    ensures (SqlAtMost(x, now) <==> Nanos(x) <= Nanos(now))
            <==> !(Seconds(x) == Seconds(now) && Nested(Fraction(x.nano), Fraction(now.nano)))
    ensures Nanos(x) + NANOS_PER_SECOND <= Nanos(now) ==> SqlAtMost(x, now)
    ensures SqlAtMost(x, now) ==> Nanos(x) < Nanos(now) + NANOS_PER_SECOND
  {
    if Seconds(x) != Seconds(now) {
      TextOrderAcrossSeconds(x, now);
    } else if x != now {
      TextOrderWithinASecond(x, now);
      LessIsTotal(Format(x), Format(now));
      FractionDecides(x, now);
    }
  }

  lemma FractionDecides(a: Instant, b: Instant)
    requires Valid(a) && Valid(b) && Seconds(a) == Seconds(b) && a != b
    ensures Nanos(a) != Nanos(b)
  {
    SameCivilFields(a, b);
    var x, y := CivilFields(a), CivilFields(b);
    assert x[0] == y[0] && x[1] == y[1] && x[2] == y[2] && x[3] == y[3] && x[4] == y[4] && x[5] == y[5];
  }

  /** The order really does go wrong: a time on the whole second is stored after one
      a tenth of a second later. */
  lemma WholeSecondSortsLate(t: Instant)
    requires Valid(t) && t.nano == 0
    ensures var later := t.(nano := 100_000_000);
            Valid(later) && Nanos(t) < Nanos(later) && !SqlAtMost(t, later)
  {
    var later := t.(nano := 100_000_000);
    ZeroFraction();
    assert Fraction(later.nano) != "" by {
      if Fraction(later.nano) == "" {
        FractionTextOrder(0, later.nano);
      }
    }
    assert Seconds(t) == Seconds(later);
    SqlTestIsOffByLessThanASecond(t, later);
  }

  lemma ZeroFraction()
    ensures Fraction(0) == ""
  {
    AllZeros(9);
    NothingAfterTrim(9);
  }

  lemma {:induction false} AllZeros(width: nat)
    ensures Digits(0, width) == Zeros(width)
  {
    if width > 0 {
      AllZeros(width - 1);
    }
  }

  lemma {:induction false} NothingAfterTrim(n: nat)
    ensures TrimZeros(Zeros(n)) == ""
  {
    if n > 0 {
      NothingAfterTrim(n - 1);
      assert Zeros(n)[..n - 1] == Zeros(n - 1);
    }
  }
}
