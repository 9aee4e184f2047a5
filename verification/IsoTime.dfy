/** Stored timestamps. Every time column is TEXT holding `Date.prototype.toISOString()`, and every
    TTL, session, retention and latest-event query compares those strings with SQLite's binary
    collation. The rest of the project keeps instants as integers (milliseconds since 1970);
    this module says exactly when the two comparisons agree.
    The printed form is that of ECMA-262 ES2022, section 21.4.1.15. */
module IsoTime {
  import opened Base

  const MS_PER_DAY := 86_400_000
  /** Largest magnitude of an ECMAScript time value; `toISOString` throws beyond it. */
  const MAX_TIME := 8_640_000_000_000_000

  // ----- calendar (ECMA-262 sections 21.4.1.2 to 21.4.1.5) -----

  function DayFromYear(y: int): int {
    365 * (y - 1970) + (y - 1969) / 4 - (y - 1901) / 100 + (y - 1601) / 400
  }

  predicate Leap(y: int) {
    y % 4 == 0 && (y % 100 != 0 || y % 400 == 0)
  }

  lemma NextQuotient(n: int, k: nat)
    requires k > 0
    ensures (n + 1) / k == n / k + if (n + 1) % k == 0 then 1 else 0
  {
    var q, r := n / k, n % k;
    assert n + 1 == k * q + (r + 1);
    if r + 1 == k {
      assert n + 1 == k * (q + 1);
      Quotient(n + 1, k, q + 1, 0);
    } else {
      Quotient(n + 1, k, q, r + 1);
    }
  }

  lemma Quotient(n: int, k: nat, q: int, r: nat)
    requires n == k * q + r && r < k
    ensures n / k == q && n % k == r
  {
    var d := q - n / k;
    assert k * d == n % k - r;
    assert d >= 1 ==> k * d >= k;
    assert d <= -1 ==> k * d + k <= 0;
  }

  lemma YearLength(y: int)
    ensures DayFromYear(y + 1) == DayFromYear(y) + if Leap(y) then 366 else 365
  {
    NextQuotient(y - 1969, 4);
    NextQuotient(y - 1901, 100);
    NextQuotient(y - 1601, 400);
    Multiples(y);
  }

  lemma Multiples(y: int)
    ensures (y - 1968) % 4 == 0 <==> y % 4 == 0
    ensures (y - 1900) % 100 == 0 <==> y % 100 == 0
    ensures (y - 1600) % 400 == 0 <==> y % 400 == 0
    ensures (y % 400 == 0 ==> y % 100 == 0) && (y % 100 == 0 ==> y % 4 == 0)
  {
    Shifted(y, 4, 492);
    Shifted(y, 100, 19);
    Shifted(y, 400, 4);
    if y % 400 == 0 { Quotient(y, 100, 4 * (y / 400), 0); }
    if y % 100 == 0 { Quotient(y, 4, 25 * (y / 100), 0); }
  }

  lemma Shifted(y: int, k: nat, c: int)
    requires k > 0
    ensures (y - k * c) % k == y % k
  {
    assert y - k * c == k * (y / k - c) + y % k;
    Quotient(y - k * c, k, y / k - c, y % k);
  }

  lemma YearsAscend(y: int, z: int)
    requires y < z
    ensures DayFromYear(y + 1) <= DayFromYear(z)
    decreases z - y
  {
    if y + 1 < z {
      YearsAscend(y, z - 1);
      YearLength(z - 1);
    }
  }

  /** The year a day number falls in: a 400-year estimate, corrected by at most one. */
  function YearFromDay(d: int): (y: int)
    ensures DayFromYear(y) <= d < DayFromYear(y + 1)
  {
    var y := 1970 + d * 400 / 146_097;
    if d < DayFromYear(y) then y - 1
    else if DayFromYear(y + 1) <= d then y + 1
    else y
  }

  /** Days of the year before month `m` (1 to 13). */
  function MonthStart(leap: bool, m: nat): nat
    requires 1 <= m <= 13
  {
    [0, 31, 59, 90, 120, 151, 181, 212, 243, 273, 304, 334, 365][m - 1] + if leap && m > 2 then 1 else 0
  }

  function MonthOfDay(leap: bool, day: nat): (m: nat)
    requires day < if leap then 366 else 365
    ensures 1 <= m <= 12 && MonthStart(leap, m) <= day < MonthStart(leap, m + 1)
  {
    var shift := if leap then 1 else 0;
    if day < 31 then 1 else if day < 59 + shift then 2 else if day < 90 + shift then 3
    else if day < 120 + shift then 4 else if day < 151 + shift then 5 else if day < 181 + shift then 6
    else if day < 212 + shift then 7 else if day < 243 + shift then 8 else if day < 273 + shift then 9
    else if day < 304 + shift then 10 else if day < 334 + shift then 11 else 12
  }

  function DayOfMonth(leap: bool, day: nat): (d: nat)
    requires day < if leap then 366 else 365
    ensures 1 <= d <= 31
  {
    day - MonthStart(leap, MonthOfDay(leap, day)) + 1
  }

  // ----- printing -----

  function Digit(n: nat): char
    requires n < 10
  {
    "0123456789"[n]
  }

  /** `n` in decimal, padded with zeros (or cut) to `width` characters. */
  function Digits(n: nat, width: nat): (s: string)
    ensures |s| == width
  {
    if width == 0 then "" else Digits(n / 10, width - 1) + [Digit(n % 10)]
  }

  function SecondText(x: nat): string { Digits(x / 1000, 2) + "." + Digits(x % 1000, 3) + "Z" }

  function MinuteText(x: nat): string { Digits(x / 60_000, 2) + ":" + SecondText(x % 60_000) }

  function ClockText(x: nat): string { Digits(x / 3_600_000, 2) + ":" + MinuteText(x % 3_600_000) }

  function DayText(day: nat, clock: nat): string { Digits(day, 2) + "T" + ClockText(clock) }

  function DateText(leap: bool, day: nat, clock: nat): string
    requires day < if leap then 366 else 365
  {
    var m := MonthOfDay(leap, day);
    Digits(m, 2) + "-" + DayText(day - MonthStart(leap, m) + 1, clock)
  }

  /** Years outside 0 to 9999 are printed with a sign and six digits. */
  function YearText(y: int): string {
    if 0 <= y <= 9999 then Digits(y, 4) else if y < 0 then "-" + Digits(-y, 6) else "+" + Digits(y, 6)
  }

  predicate Representable(t: int) { -MAX_TIME <= t <= MAX_TIME }

  function Year(t: int): int { YearFromDay(t / MS_PER_DAY) }

  function DayOfYear(t: int): (day: nat)
    ensures day < if Leap(Year(t)) then 366 else 365
  {
    YearLength(Year(t));
    t / MS_PER_DAY - DayFromYear(Year(t))
  }

  /** `new Date(t).toISOString()`. */
  function ToIsoString(t: int): string
    requires Representable(t)
  {
    YearText(Year(t)) + "-" + DateText(Leap(Year(t)), DayOfYear(t), t % MS_PER_DAY)
  }

  /** SQLite's binary collation on TEXT: the first difference decides, a proper prefix is smaller. */
  predicate TextLess(s: string, t: string) {
    |t| > 0 && (|s| == 0 || s[0] < t[0] || (s[0] == t[0] && TextLess(s[1..], t[1..])))
  }

  // ----- order of printed parts -----

  lemma {:induction false} ConcatOrder(a: string, b: string, c: string, d: string)
    requires |a| == |c|
    ensures TextLess(a + b, c + d) <==> TextLess(a, c) || (a == c && TextLess(b, d))
    ensures a + b == c + d <==> a == c && b == d
  {
    if a == [] {
      assert a + b == b && c + d == d;
    } else {
      assert (a + b)[1..] == a[1..] + b && (c + d)[1..] == c[1..] + d;
      ConcatOrder(a[1..], b, c[1..], d);
      assert a == [a[0]] + a[1..] && c == [c[0]] + c[1..];
      assert a + b == [a[0]] + (a[1..] + b) && c + d == [c[0]] + (c[1..] + d);
    }
  }

  lemma Irreflexive(s: string)
    ensures !TextLess(s, s)
  {
  }

  function Pow10(w: nat): nat { if w == 0 then 1 else 10 * Pow10(w - 1) }

  lemma DigitOrder(m: nat, n: nat)
    requires m < 10 && n < 10
    ensures TextLess([Digit(m)], [Digit(n)]) <==> m < n
    ensures [Digit(m)] == [Digit(n)] <==> m == n
  {
    assert Digit(m) as int == '0' as int + m && Digit(n) as int == '0' as int + n;
    assert [Digit(m)][0] == Digit(m) && [Digit(n)][0] == Digit(n);
  }

  lemma TensOrder(m: nat, n: nat)
    ensures m < n <==> m / 10 < n / 10 || (m / 10 == n / 10 && m % 10 < n % 10)
    ensures m == n <==> m / 10 == n / 10 && m % 10 == n % 10
  {
  }

  lemma {:induction false} DigitsOrder(m: nat, n: nat, w: nat)
    requires m < Pow10(w) && n < Pow10(w)
    ensures TextLess(Digits(m, w), Digits(n, w)) <==> m < n
    ensures Digits(m, w) == Digits(n, w) <==> m == n
  {
    if w == 0 {
    } else {
      DigitsOrder(m / 10, n / 10, w - 1);
      ConcatOrder(Digits(m / 10, w - 1), [Digit(m % 10)], Digits(n / 10, w - 1), [Digit(n % 10)]);
      DigitOrder(m % 10, n % 10);
      TensOrder(m, n);
    }
  }

  /** Two printed pairs "head sep tail" compare like their heads, and on equal heads like their tails. */
  lemma PairOrder(m: nat, n: nat, w: nat, sep: string, s: string, t: string)
    requires m < Pow10(w) && n < Pow10(w)
    ensures TextLess(Digits(m, w) + sep + s, Digits(n, w) + sep + t) <==> m < n || (m == n && TextLess(s, t))
  {
    DigitsOrder(m, n, w);
    ConcatOrder(Digits(m, w), sep + s, Digits(n, w), sep + t);
    ConcatOrder(sep, s, sep, t);
    Irreflexive(sep);
    assert Digits(m, w) + sep + s == Digits(m, w) + (sep + s);
    assert Digits(n, w) + sep + t == Digits(n, w) + (sep + t);
  }

  lemma ClockOrder(x: nat, y: nat)
    requires x < MS_PER_DAY && y < MS_PER_DAY
    ensures TextLess(ClockText(x), ClockText(y)) <==> x < y
  {
    assert Pow10(2) == 100 && Pow10(3) == 1000;
    PairOrder(x / 3_600_000, y / 3_600_000, 2, ":", MinuteText(x % 3_600_000), MinuteText(y % 3_600_000));
    var u, v := x % 3_600_000, y % 3_600_000;
    PairOrder(u / 60_000, v / 60_000, 2, ":", SecondText(u % 60_000), SecondText(v % 60_000));
    SecondOrder(u % 60_000, v % 60_000);
  }

  lemma SecondOrder(x: nat, y: nat)
    requires x < 60_000 && y < 60_000
    ensures TextLess(SecondText(x), SecondText(y)) <==> x < y
  {
    assert Pow10(2) == 100 && Pow10(3) == 1000;
    PairOrder(x / 1000, y / 1000, 2, ".", Digits(x % 1000, 3) + "Z", Digits(y % 1000, 3) + "Z");
    PairOrder(x % 1000, y % 1000, 3, "Z", "", "");
    assert Digits(x % 1000, 3) + "Z" + "" == Digits(x % 1000, 3) + "Z";
    assert Digits(y % 1000, 3) + "Z" + "" == Digits(y % 1000, 3) + "Z";
    assert SecondText(x) == Digits(x / 1000, 2) + "." + (Digits(x % 1000, 3) + "Z");
    assert SecondText(y) == Digits(y / 1000, 2) + "." + (Digits(y % 1000, 3) + "Z");
  }

  lemma DayOrder(i: nat, x: nat, j: nat, y: nat)
    requires i < 100 && j < 100 && x < MS_PER_DAY && y < MS_PER_DAY
    ensures TextLess(DayText(i, x), DayText(j, y)) <==> i < j || (i == j && x < y)
  {
    assert Pow10(2) == 100;
    PairOrder(i, j, 2, "T", ClockText(x), ClockText(y));
    ClockOrder(x, y);
  }

  lemma MonthsAscend(leap: bool, m: nat, n: nat)
    requires 1 <= m < n <= 13
    ensures MonthStart(leap, m + 1) <= MonthStart(leap, n)
    decreases n - m
  {
    if m + 1 < n { MonthsAscend(leap, m, n - 1); }
  }

  lemma MonthOrder(leap: bool, d: nat, e: nat)
    requires d < e < if leap then 366 else 365
    ensures var m, n := MonthOfDay(leap, d), MonthOfDay(leap, e);
            m < n || (m == n && DayOfMonth(leap, d) < DayOfMonth(leap, e))
  {
    var m, n := MonthOfDay(leap, d), MonthOfDay(leap, e);
    if n < m { MonthsAscend(leap, n, m); }
  }

  lemma MonthOrderIff(leap: bool, d: nat, e: nat)
    requires d < if leap then 366 else 365
    requires e < if leap then 366 else 365
    ensures var m, n := MonthOfDay(leap, d), MonthOfDay(leap, e);
            && (d < e <==> m < n || (m == n && DayOfMonth(leap, d) < DayOfMonth(leap, e)))
            && (d == e <==> m == n && DayOfMonth(leap, d) == DayOfMonth(leap, e))
  {
    if d < e { MonthOrder(leap, d, e); } else if e < d { MonthOrder(leap, e, d); }
  }

  lemma DateParts(leap: bool, d: nat, x: nat)
    requires d < if leap then 366 else 365
    ensures DateText(leap, d, x) == Digits(MonthOfDay(leap, d), 2) + "-" + DayText(DayOfMonth(leap, d), x)
  {
  }

  lemma DateOrder(leap: bool, d: nat, x: nat, e: nat, y: nat)
    requires d < if leap then 366 else 365
    requires e < if leap then 366 else 365
    requires x < MS_PER_DAY && y < MS_PER_DAY
    ensures TextLess(DateText(leap, d, x), DateText(leap, e, y)) <==> d < e || (d == e && x < y)
  {
    MonthOrderIff(leap, d, e);
    DateParts(leap, d, x);
    DateParts(leap, e, y);
    DateTextOrder(MonthOfDay(leap, d), DayOfMonth(leap, d), x, MonthOfDay(leap, e), DayOfMonth(leap, e), y);
  }

  lemma DateTextOrder(m: nat, i: nat, x: nat, n: nat, j: nat, y: nat)
    requires m < 100 && i < 100 && x < MS_PER_DAY && n < 100 && j < 100 && y < MS_PER_DAY
    ensures TextLess(Digits(m, 2) + "-" + DayText(i, x), Digits(n, 2) + "-" + DayText(j, y))
       <==> m < n || (m == n && (i < j || (i == j && x < y)))
  {
    assert Pow10(2) == 100;
    PairOrder(m, n, 2, "-", DayText(i, x), DayText(j, y));
    DayOrder(i, x, j, y);
  }

  // ----- the theorem -----

  lemma YearBounds(t: int)
    requires Representable(t)
    ensures -271_821 <= Year(t) <= 275_760
  {
    var y := Year(t);
    if y < -271_821 { YearsAscend(y, -271_821); }
    if y > 275_760 { YearsAscend(275_760, y); }
  }

  /** Where in the text order the year's notation falls: "+" before "-" before a digit. */
  function Notation(y: int): int { if y > 9999 then 0 else if y < 0 then 1 else 2 }

  predicate YearTextLess(y: int, z: int) {
    if Notation(y) != Notation(z) then Notation(y) < Notation(z) else if y < 0 then y > z else y < z
  }

  lemma NotationOrder(y: int, z: int, s: string, t: string)
    requires -271_821 <= y <= 275_760 && -271_821 <= z <= 275_760 && Notation(y) != Notation(z)
    ensures TextLess(YearText(y) + "-" + s, YearText(z) + "-" + t) <==> Notation(y) < Notation(z)
  {
    FirstChar(y);
    FirstChar(z);
    FirstDecides(YearText(y), "-" + s, YearText(z), "-" + t);
    assert YearText(y) + "-" + s == YearText(y) + ("-" + s);
    assert YearText(z) + "-" + t == YearText(z) + ("-" + t);
  }

  lemma FirstDecides(a: string, b: string, c: string, d: string)
    requires a != "" && c != "" && a[0] != c[0]
    ensures TextLess(a + b, c + d) <==> a[0] < c[0]
  {
    assert (a + b)[0] == a[0] && (c + d)[0] == c[0];
  }

  lemma {:induction false} YearTextOrder(y: int, z: int, s: string, t: string)
    requires -271_821 <= y <= 275_760 && -271_821 <= z <= 275_760
    ensures TextLess(YearText(y) + "-" + s, YearText(z) + "-" + t)
       <==> YearTextLess(y, z) || (y == z && TextLess(s, t))
  {
    if Notation(y) != Notation(z) {
      NotationOrder(y, z, s, t);
    } else if Notation(y) == 2 {
      assert Pow10(4) == 10_000;
      PairOrder(y, z, 4, "-", s, t);
    } else if y < 0 {
      SignedOrder("-", -y, -z, s, t);
    } else {
      SignedOrder("+", y, z, s, t);
    }
  }

  lemma SixDigits()
    ensures Pow10(6) == 1_000_000
  {
    assert Pow10(2) == 100;
    assert Pow10(4) == 10_000;
  }

  lemma Regroup(a: string, b: string, c: string, d: string)
    ensures a + b + c + d == a + (b + c + d)
  {
  }

  lemma SignedOrder(sign: string, m: nat, n: nat, s: string, t: string)
    requires m < 1_000_000 && n < 1_000_000
    ensures TextLess(sign + Digits(m, 6) + "-" + s, sign + Digits(n, 6) + "-" + t)
       <==> m < n || (m == n && TextLess(s, t))
  {
    SixDigits();
    PairOrder(m, n, 6, "-", s, t);
    ConcatOrder(sign, Digits(m, 6) + "-" + s, sign, Digits(n, 6) + "-" + t);
    Irreflexive(sign);
    Regroup(sign, Digits(m, 6), "-", s);
    Regroup(sign, Digits(n, 6), "-", t);
  }

  lemma FirstChar(y: int)
    requires -271_821 <= y <= 275_760
    ensures |YearText(y)| > 0
    ensures var c := YearText(y)[0];
            (Notation(y) == 0 && c == '+') || (Notation(y) == 1 && c == '-') || (Notation(y) == 2 && '0' <= c <= '9')
  {
    if Notation(y) == 2 {
      assert Digits(y, 4)[0] == Digits(y / 10, 3)[0] == Digits(y / 10 / 10, 2)[0] == Digits(y / 10 / 10 / 10, 1)[0];
    }
  }

  /** Text order of two printed instants, for every instant a `Date` can hold. */
  lemma TextOrder(a: int, b: int)
    requires Representable(a) && Representable(b)
    ensures TextLess(ToIsoString(a), ToIsoString(b)) <==> YearTextLess(Year(a), Year(b)) || (Year(a) == Year(b) && a < b)
  {
    YearBounds(a);
    YearBounds(b);
    YearTextOrder(Year(a), Year(b), DateText(Leap(Year(a)), DayOfYear(a), a % MS_PER_DAY),
                  DateText(Leap(Year(b)), DayOfYear(b), b % MS_PER_DAY));
    if Year(a) == Year(b) {
      DateOrder(Leap(Year(a)), DayOfYear(a), a % MS_PER_DAY, DayOfYear(b), b % MS_PER_DAY);
    }
  }

  lemma LaterYearIsLater(a: int, b: int)
    ensures Year(a) < Year(b) ==> a < b
  {
    if Year(a) < Year(b) { YearsAscend(Year(a), Year(b)); }
  }

  /** Exactly when the text comparison that the SQL performs agrees with comparing the instants:
      both years at most 9999 (and, before year 0, the same year), or both beyond 9999. */
  lemma TextOrderAgreesIff(a: int, b: int)
    requires Representable(a) && Representable(b)
    ensures (TextLess(ToIsoString(a), ToIsoString(b)) <==> a < b) && (TextLess(ToIsoString(b), ToIsoString(a)) <==> b < a)
       <==> (Year(a) <= 9999 && Year(b) <= 9999 && (Year(a) >= 0 || Year(b) >= 0 || Year(a) == Year(b)))
            || (Year(a) > 9999 && Year(b) > 9999)
  {
    TextOrder(a, b);
    TextOrder(b, a);
    LaterYearIsLater(a, b);
    LaterYearIsLater(b, a);
  }

  /** No two instants print alike. */
  lemma PrintingIsInjective(a: int, b: int)
    requires Representable(a) && Representable(b)
    ensures ToIsoString(a) == ToIsoString(b) <==> a == b
  {
    Irreflexive(ToIsoString(a));
    TextOrder(a, b);
    TextOrder(b, a);
  }

  lemma EndOf9999()
    ensures Year(253_402_300_799_999) == 9999
  {
    assert 253_402_300_799_999 / MS_PER_DAY == 2_932_896;
  }

  lemma StartOf10000()
    ensures Year(253_402_300_800_000) == 10_000
  {
    assert 253_402_300_800_000 / MS_PER_DAY == 2_932_897;
  }

  /** Past year 9999 the comparison turns over: the later instant sorts first. */
  lemma TextOrderFailsAfter9999()
    ensures Representable(253_402_300_799_999) && Representable(253_402_300_800_000)
    ensures TextLess(ToIsoString(253_402_300_800_000), ToIsoString(253_402_300_799_999))
  {
    EndOf9999();
    StartOf10000();
    TextOrder(253_402_300_800_000, 253_402_300_799_999);
  }

  // ----- reading a printed instant back -----

  predicate AllDigits(s: string) { forall i :: 0 <= i < |s| ==> '0' <= s[i] <= '9' }

  function Value(s: string): nat
    requires AllDigits(s)
  {
    if s == [] then 0 else 10 * Value(s[..|s| - 1]) + (s[|s| - 1] as int - '0' as int)
  }

  /** "ss.mmmZ" */
  function ParseSeconds(s: string): Option<int> {
    if |s| == 7 && AllDigits(s[..2]) && s[2] == '.' && AllDigits(s[3..6]) && s[6] == 'Z' then
      Some(1000 * Value(s[..2]) + Value(s[3..6]))
    else None
  }

  /** Two digits and a separator, worth `unit` each, before the rest. */
  function ParseField(s: string, separator: char, unit: int, rest: Option<int>): Option<int>
    requires |s| >= 3
  {
    if AllDigits(s[..2]) && s[2] == separator && rest.Some? then Some(unit * Value(s[..2]) + rest.value) else None
  }

  /** "hh:mm:ss.mmmZ" */
  function ParseClock(s: string): Option<int> {
    if |s| < 6 then None else ParseField(s, ':', 3_600_000, ParseField(s[3..], ':', 60_000, ParseSeconds(s[6..])))
  }

  /** "MM-DDThh:mm:ss.mmmZ", from the start of a year. */
  function ParseDate(leap: bool, s: string): Option<int> {
    if |s| < 6 || !AllDigits(s[..2]) || s[2] != '-' || !(1 <= Value(s[..2]) <= 12) then None
    else
      match ParseField(s[3..], 'T', MS_PER_DAY, ParseClock(s[6..]))
      case None => None
      case Some(t) => Some((MonthStart(leap, Value(s[..2])) - 1) * MS_PER_DAY + t)
  }

  /** `new Date(s).getTime()` for the 24-character form of the years 0 to 9999. */
  function ParseIso(s: string): Option<int> {
    if |s| != 24 || !AllDigits(s[..4]) || s[4] != '-' then None
    else
      match ParseDate(Leap(Value(s[..4])), s[5..])
      case None => None
      case Some(t) => Some(DayFromYear(Value(s[..4])) * MS_PER_DAY + t)
  }

  lemma {:induction false} DigitsValue(n: nat, w: nat)
    requires n < Pow10(w)
    ensures AllDigits(Digits(n, w)) && Value(Digits(n, w)) == n
  {
    if w == 0 {
    } else {
      DigitsValue(n / 10, w - 1);
      var s := Digits(n, w);
      assert s[..|s| - 1] == Digits(n / 10, w - 1);
      assert Digit(n % 10) as int == '0' as int + n % 10;
    }
  }

  lemma Cut(a: string, separator: char, b: string)
    ensures var s := a + [separator] + b; s[..|a|] == a && s[|a|] == separator && s[|a| + 1..] == b
  {
  }

  lemma FieldBack(n: nat, separator: char, unit: int, rest: string, value: Option<int>)
    requires n < 100
    ensures var s := Digits(n, 2) + [separator] + rest;
            |s| == 3 + |rest| && s[3..] == rest && AllDigits(s[..2]) && Value(s[..2]) == n && s[2] == separator
            && ParseField(s, separator, unit, value) == if value.Some? then Some(unit * n + value.value) else None
  {
    assert Pow10(2) == 100;
    DigitsValue(n, 2);
    Cut(Digits(n, 2), separator, rest);
  }

  lemma SecondsCut(a: string, b: string)
    requires |a| == 2 && |b| == 3
    ensures var s := a + "." + b + "Z"; |s| == 7 && s[..2] == a && s[2] == '.' && s[3..6] == b && s[6] == 'Z'
  {
  }

  lemma SecondsBack(x: nat)
    requires x < 60_000
    ensures |SecondText(x)| == 7 && ParseSeconds(SecondText(x)) == Some(x)
  {
    assert Pow10(2) == 100 && Pow10(3) == 1000;
    DigitsValue(x / 1000, 2);
    DigitsValue(x % 1000, 3);
    SecondsCut(Digits(x / 1000, 2), Digits(x % 1000, 3));
  }

  lemma ClockBack(x: nat)
    requires x < MS_PER_DAY
    ensures |ClockText(x)| == 13 && ParseClock(ClockText(x)) == Some(x)
  {
    var m := x % 3_600_000;
    SecondsBack(m % 60_000);
    var seconds := SecondText(m % 60_000);
    FieldBack(m / 60_000, ':', 60_000, seconds, Some(m % 60_000));
    var minutes := MinuteText(m);
    assert minutes == Digits(m / 60_000, 2) + [':'] + seconds;
    FieldBack(x / 3_600_000, ':', 3_600_000, minutes, Some(m));
    var s := ClockText(x);
    assert s == Digits(x / 3_600_000, 2) + [':'] + minutes;
    assert s[6..] == s[3..][3..] == seconds;
  }

  lemma DateBack(leap: bool, day: nat, clock: nat)
    requires day < (if leap then 366 else 365) && clock < MS_PER_DAY
    ensures |DateText(leap, day, clock)| == 19 && ParseDate(leap, DateText(leap, day, clock)) == Some(day * MS_PER_DAY + clock)
  {
    var m, d := MonthOfDay(leap, day), DayOfMonth(leap, day);
    DateParts(leap, day, clock);
    ClockBack(clock);
    FieldBack(d, 'T', MS_PER_DAY, ClockText(clock), Some(clock));
    var text := DayText(d, clock);
    assert text == Digits(d, 2) + ['T'] + ClockText(clock);
    FieldBack(m, '-', 0, text, Some(0));
    var s := DateText(leap, day, clock);
    assert s == Digits(m, 2) + ['-'] + text;
    assert s[6..] == s[3..][3..] == ClockText(clock);
    DaySum(MonthStart(leap, m), d, clock);
  }

  lemma DaySum(start: int, d: int, clock: int)
    ensures (start - 1) * MS_PER_DAY + (MS_PER_DAY * d + clock) == (start + d - 1) * MS_PER_DAY + clock
  {
  }

  lemma YearBack(y: nat, date: string, x: int)
    requires y <= 9999 && |date| == 19 && ParseDate(Leap(y), date) == Some(x)
    ensures var s := Digits(y, 4) + ['-'] + date; |s| == 24 && ParseIso(s) == Some(DayFromYear(y) * MS_PER_DAY + x)
  {
    assert Pow10(4) == 10_000;
    DigitsValue(y, 4);
    Cut(Digits(y, 4), '-', date);
  }

  lemma TimeSum(t: int)
    ensures DayFromYear(Year(t)) * MS_PER_DAY + (DayOfYear(t) * MS_PER_DAY + t % MS_PER_DAY) == t
  {
    assert DayOfYear(t) == t / MS_PER_DAY - DayFromYear(Year(t));
  }

  lemma DatePartBack(t: int)
    ensures var date := DateText(Leap(Year(t)), DayOfYear(t), t % MS_PER_DAY);
            |date| == 19 && ParseDate(Leap(Year(t)), date) == Some(t - DayFromYear(Year(t)) * MS_PER_DAY)
  {
    DateBack(Leap(Year(t)), DayOfYear(t), t % MS_PER_DAY);
    TimeSum(t);
  }

  lemma IsoParts(t: int) returns (y: nat, date: string, x: int)
    requires Representable(t) && 0 <= Year(t) <= 9999
    ensures y <= 9999 && ToIsoString(t) == Digits(y, 4) + ['-'] + date
    ensures |date| == 19 && ParseDate(Leap(y), date) == Some(x) && t == DayFromYear(y) * MS_PER_DAY + x
  {
    y, date := Year(t), DateText(Leap(Year(t)), DayOfYear(t), t % MS_PER_DAY);
    x := t - DayFromYear(y) * MS_PER_DAY;
    DatePartBack(t);
  }

  /** Every stored timestamp of the years 0 to 9999 has the fixed 24-character form, and reading it back gives
      the instant it was printed from. */
  lemma ParseInvertsPrinting(t: int)
    requires Representable(t) && 0 <= Year(t) <= 9999
    ensures |ToIsoString(t)| == 24 && ParseIso(ToIsoString(t)) == Some(t)
  {
    var y, date, x := IsoParts(t);
    YearBack(y, date, x);
  }

  /** The months of the calendar. */
  lemma MonthLengths(leap: bool, m: nat)
    requires 1 <= m <= 12
    ensures MonthStart(leap, 1) == 0
    ensures MonthStart(leap, m + 1) - MonthStart(leap, m) ==
            if m == 2 then (if leap then 29 else 28) else if m in {4, 6, 9, 11} then 30 else 31
  {
  }

  /** The years of the calendar, counted from 1970. */
  lemma YearZeroDay()
    ensures DayFromYear(1970) == 0
  {
  }
}
