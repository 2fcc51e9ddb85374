/** Timestamps of the query log as text (src/logbuffer.rs). */
module Calendar {
  import opened Prelude
  import opened Order
  import opened Arithmetic

  const YEAR_10000: nat := 253_402_300_800

  datatype Date = Date(year: int, month: int, day: int)

  // ---- the Gregorian calendar ----

  predicate Leap(year: int) {
    year % 4 == 0 && (year % 100 != 0 || year % 400 == 0)
  }

  function DaysIn(year: int, month: int): int {
    if month == 2 then (if Leap(year) then 29 else 28)
    else if month == 4 || month == 6 || month == 9 || month == 11 then 30
    else 31
  }

  predicate IsDate(x: Date) {
    1 <= x.month <= 12 && 1 <= x.day <= DaysIn(x.year, x.month)
  }

  function NextDay(x: Date): Date {
    if x.day < DaysIn(x.year, x.month) then x.(day := x.day + 1)
    else if x.month < 12 then Date(x.year, x.month + 1, 1)
    else Date(x.year + 1, 1, 1)
  }

  predicate Earlier(x: Date, y: Date) {
    x.year < y.year || (x.year == y.year && (x.month < y.month || (x.month == y.month && x.day < y.day)))
  }

  // ---- the arithmetic of the formatter ----

  /** Year of the era of a day of the era, years counted from March. */
  function YearOfEra(doe: int): int {
    (doe - doe / 1460 + doe / 36524 - doe / 146096) / 365
  }

  function YearStart(yoe: int): int {
    365 * yoe + yoe / 4 - yoe / 100
  }

  function MonthStart(mp: int): int {
    (153 * mp + 2) / 5
  }

  /** The date of a day `doy` of the March-based year `y`. */
  function InYear(y: int, doy: int): Date {
    var mp := (5 * doy + 2) / 153;
    var month := if mp < 10 then mp + 3 else mp - 9;
    Date(if month <= 2 then y + 1 else y, month, doy - MonthStart(mp) + 1)
  }

  function Civil(days: nat): Date {
    var z := days + 719468;
    var era := (if z >= 0 then z else z - 146096) / 146097;
    var doe := z - era * 146097;
    var yoe := YearOfEra(doe);
    InYear(yoe + era * 400, doe - YearStart(yoe))
  }

  // ---- the formatter finds the right year ----

  /** Day `doy` of year `100c + 4q + a` of an era of 400 years, each running from March to February. */
  datatype Place = Place(era: int, c: int, q: int, a: int, doy: int) {
    predicate Valid() {
      0 <= c < 4 && 0 <= q < 25 && 0 <= a < 4 && 0 <= doy < YearLength()
    }

    function YearLength(): int {
      if a == 3 && (q < 24 || c == 3) then 366 else 365
    }

    function Year(): int {
      400 * era + 100 * c + 4 * q + a
    }

    function DayOfEra(): int {
      36524 * c + 1461 * q + 365 * a + doy
    }

    function Count(): int {
      era * 146097 + DayOfEra()
    }

    predicate LastOfYear() {
      doy + 1 == YearLength()
    }

    function Next(): Place {
      if !LastOfYear() then this.(doy := doy + 1)
      else if a < 3 then Place(era, c, q, a + 1, 0)
      else if q < 24 then Place(era, c, q + 1, 0, 0)
      else if c < 3 then Place(era, c + 1, 0, 0, 0)
      else Place(era + 1, 0, 0, 0, 0)
    }
  }

  /** Only the last day of an era fills a fifth century, and the last term takes it back. */
  lemma CenturyFound(p: Place)
    requires p.Valid()
    ensures p.DayOfEra() / 36524 - p.DayOfEra() / 146096 == p.c
  {
    var doe := p.DayOfEra();
    if doe == 146096 {
      assert doe / 36524 == 4;
    } else {
      Divides(doe, 36524, p.c, 1461 * p.q + 365 * p.a + p.doy);
      Divides(doe, 146096, 0, doe);
    }
  }

  lemma YearFound(p: Place)
    requires p.Valid()
    ensures var yoe := YearOfEra(p.DayOfEra()); yoe == 100 * p.c + 4 * p.q + p.a && p.DayOfEra() - YearStart(yoe) == p.doy
  {
    var doe, year := p.DayOfEra(), 100 * p.c + 4 * p.q + p.a;
    var rest := 24 * p.c + p.q + 365 * p.a + p.doy;
    var spill := if rest >= 1460 then 1 else 0;
    Divides(doe, 1460, 25 * p.c + p.q + spill, rest - 1460 * spill);
    CenturyFound(p);
    Divides(365 * year + p.doy - spill, 365, year, p.doy - spill);
    Divides(year, 4, 25 * p.c + p.q, p.a);
    Divides(year, 100, p.c, 4 * p.q + p.a);
  }

  /** Every day has its place. */
  lemma Locate(z: nat) returns (p: Place)
    ensures p.Valid() && p.Count() == z
  {
    var era := z / 146097;
    var doe := z - era * 146097;
    var c := Min(doe / 36524, 3);
    var r := doe - 36524 * c;
    var q := Min(r / 1461, 24);
    var a := Min((r - 1461 * q) / 365, 3);
    p := Place(era, c, q, a, r - 1461 * q - 365 * a);
  }

  lemma CivilAt(days: nat, p: Place)
    requires p.Valid() && days + 719468 == p.Count()
    ensures Civil(days) == InYear(p.Year(), p.doy)
  {
    hide YearOfEra;
    hide YearStart;
    hide InYear;
    YearFound(p);
    Divides(days + 719468, 146097, p.era, p.DayOfEra());
  }

  lemma NextCounts(p: Place)
    requires p.Valid()
    ensures p.Next().Valid() && p.Next().Count() == p.Count() + 1
  {
  }

  lemma NextYear(p: Place)
    requires p.Valid()
    ensures p.Next().Year() == if p.LastOfYear() then p.Year() + 1 else p.Year()
    ensures p.Next().doy == if p.LastOfYear() then 0 else p.doy + 1
  {
  }

  /** The leap day ends the March-based year. */
  lemma LeapYears(p: Place)
    requires p.Valid()
    ensures Leap(p.Year() + 1) <==> p.YearLength() == 366
  {
    var y := p.Year() + 1;
    Divides(y, 4, 100 * p.era + 25 * p.c + p.q + (p.a + 1) / 4, (p.a + 1) % 4);
    if p.a == 3 {
      Divides(y, 100, 4 * p.era + p.c + (p.q + 1) / 25, 4 * ((p.q + 1) % 25));
      Divides(y, 400, p.era + (100 * p.c + 4 * p.q + 4) / 400, (100 * p.c + 4 * p.q + 4) % 400);
    }
  }

  // ---- the formatter finds the right month and day ----

  lemma MonthFound(doy: int)
    requires 0 <= doy < 366
    ensures var mp := (5 * doy + 2) / 153; 0 <= mp < 12 && MonthStart(mp) <= doy < MonthStart(mp + 1)
  {
  }

  lemma MonthUnique(doy: int, mp: int)
    requires 0 <= doy && MonthStart(mp) <= doy < MonthStart(mp + 1)
    ensures (5 * doy + 2) / 153 == mp
  {
  }

  lemma MonthLength(mp: int)
    requires 0 <= mp < 11
    ensures MonthStart(mp + 1) - MonthStart(mp) == DaysIn(2001, if mp < 10 then mp + 3 else mp - 9)
  {
  }

  lemma NextInYear(y: int, doy: int, len: int)
    requires 0 <= doy < len && len == (if Leap(y + 1) then 366 else 365)
    ensures IsDate(InYear(y, doy))
    ensures NextDay(InYear(y, doy)) == if doy + 1 < len then InYear(y, doy + 1) else InYear(y + 1, 0)
  {
    var mp := (5 * doy + 2) / 153;
    MonthFound(doy);
    if mp < 11 {
      MonthLength(mp);
      if doy + 1 < MonthStart(mp + 1) {
        MonthUnique(doy + 1, mp);
      } else {
        MonthUnique(doy + 1, mp + 1);
      }
    } else if doy + 1 < len {
      MonthUnique(doy + 1, mp);
    }
  }

  /** Every day count gives a date, and the next count gives its calendar successor. */
  lemma CivilSteps(days: nat)
    ensures IsDate(Civil(days)) && Civil(days + 1) == NextDay(Civil(days))
  {
    hide Civil;
    hide InYear;
    hide Leap;
    var p := Locate(days + 719468);
    CivilAt(days, p);
    LeapYears(p);
    NextInYear(p.Year(), p.doy, p.YearLength());
    NextCounts(p);
    NextYear(p);
    CivilAt(days + 1, p.Next());
  }

  function DaysAfter(x: Date, n: nat): Date {
    if n == 0 then x else NextDay(DaysAfter(x, n - 1))
  }

  /** Day 0 is 1 January 1970 and day `n` is the `n`-th day after it. */
  lemma {:induction false} CivilIsGregorian(days: nat)
    ensures Civil(days) == DaysAfter(Date(1970, 1, 1), days)
  {
    hide Civil;
    if days == 0 {
      CivilAt(0, Place(4, 3, 17, 1, 306));
    } else {
      CivilIsGregorian(days - 1);
      CivilSteps(days - 1);
    }
  }

  lemma {:induction false} CivilOrder(m: nat, n: nat)
    requires m < n
    ensures Earlier(Civil(m), Civil(n))
  {
    hide Civil;
    CivilSteps(n - 1);
    if m < n - 1 {
      CivilOrder(m, n - 1);
    }
  }

  // ---- the text ----

  /** Decimal text with at least `width` digits. */
  function Pad(n: nat, width: nat): string
    decreases n, width
  {
    if n == 0 && width == 0 then ""
    else Pad(n / 10, if width > 0 then width - 1 else 0) + [DIGITS[n % 10]]
  }

  const DIGITS: string := "0123456789"
  const WIDTHS: seq<nat> := [4, 2, 2, 2, 2, 2]
  const MARKS: string := "--T::Z"

  function Fields(secs: nat): (r: seq<int>)
    ensures |r| == 6
  {
    var date, s := Civil(secs / 86400), secs % 86400;
    [date.year, date.month, date.day, s / 3600, s % 3600 / 60, s % 60]
  }

  /** Each field followed by its separator. */
  function Render(fields: seq<nat>, widths: seq<nat>, marks: string): string
    requires |fields| == |widths| == |marks|
  {
    if fields == [] then ""
    else Pad(fields[0], widths[0]) + ([marks[0]] + Render(fields[1..], widths[1..], marks[1..]))
  }

  predicate CharLess(a: char, b: char) { a < b }
  predicate TextLess(a: string, b: string) { LexLess(CharLess, a, b) }
  predicate FieldsLess(a: seq<int>, b: seq<int>) { LexLess(IntLess, a, b) }

  lemma {:induction false} CivilYear(days: nat)
    ensures Civil(days).year >= 1970
  {
    hide Civil;
    CivilSteps(days);
    if days == 0 {
      CivilIsGregorian(0);
    } else {
      CivilYear(days - 1);
      CivilSteps(days - 1);
    }
  }

  lemma FieldsNatural(secs: nat)
    ensures forall i :: 0 <= i < 6 ==> Fields(secs)[i] >= 0
    ensures forall i :: 1 <= i < 6 ==> Fields(secs)[i] < 100
  {
    hide Civil;
    CivilSteps(secs / 86400);
    CivilYear(secs / 86400);
  }

  function FormatTs(secs: nat): string {
    FieldsNatural(secs);
    Render(Fields(secs), WIDTHS, MARKS)
  }

  lemma FieldsOrder(a: nat, b: nat)
    requires a < b
    ensures FieldsLess(Fields(a), Fields(b))
  {
    hide Civil;
    var m, n, f, g := a / 86400, b / 86400, Fields(a), Fields(b);
    var k;
    if m < n {
      CivilOrder(m, n);
      k := if f[0] < g[0] then 0 else if f[1] < g[1] then 1 else 2;
    } else {
      ClockOrder(a % 86400, b % 86400);
      k := if f[3] < g[3] then 3 else if f[4] < g[4] then 4 else 5;
    }
    hide Fields;
    assert forall i :: 0 <= i < k ==> f[i] == g[i];
    LexFields(f, g, k);
  }

  lemma ClockParts(s: nat)
    ensures s == 3600 * (s / 3600) + 60 * (s % 3600 / 60) + s % 60
  {
    var h, r := s / 3600, s % 3600;
    assert s == r + (60 * h) * 60;
    Shifted(r, 60, 60 * h);
  }

  lemma ClockOrder(s: nat, t: nat)
    requires s < t
    ensures s / 3600 <= t / 3600
    ensures s / 3600 == t / 3600 ==> s % 3600 / 60 <= t % 3600 / 60
    ensures s / 3600 == t / 3600 && s % 3600 / 60 == t % 3600 / 60 ==> s % 60 < t % 60
  {
    ClockParts(s);
    ClockParts(t);
  }

  lemma {:induction false} LexFields(f: seq<int>, g: seq<int>, k: nat)
    requires k < |f| && k < |g| && f[..k] == g[..k] && f[k] < g[k]
    ensures FieldsLess(f, g)
  {
    if k > 0 {
      assert f[0] == f[..k][0] == g[..k][0] == g[0];
      assert f[1..][..k - 1] == f[..k][1..] && g[1..][..k - 1] == g[..k][1..];
      LexFields(f[1..], g[1..], k - 1);
    }
  }

  lemma CharConcat(a: string, b: string, x: string, y: string)
    requires |a| == |b|
    ensures TextLess(a + x, b + y) == (TextLess(a, b) || (a == b && TextLess(x, y)))
  {
    LexConcat(CharLess, a, b, x, y);
  }

  lemma {:induction false} PadOrder(n: nat, m: nat, width: nat)
    requires n < m && |Pad(n, width)| == |Pad(m, width)|
    ensures TextLess(Pad(n, width), Pad(m, width))
    decreases m
  {
    var w := if width > 0 then width - 1 else 0;
    CharConcat(Pad(n / 10, w), Pad(m / 10, w), [DIGITS[n % 10]], [DIGITS[m % 10]]);
    if n / 10 < m / 10 {
      PadOrder(n / 10, m / 10, w);
    }
  }

  lemma {:induction false} RenderOrder(f: seq<nat>, g: seq<nat>, widths: seq<nat>, marks: string)
    requires |f| == |g| == |widths| == |marks| && FieldsLess(f, g)
    requires forall i :: 0 <= i < |f| ==> |Pad(f[i], widths[i])| == |Pad(g[i], widths[i])|
    ensures TextLess(Render(f, widths, marks), Render(g, widths, marks))
  {
    var x, y := Render(f[1..], widths[1..], marks[1..]), Render(g[1..], widths[1..], marks[1..]);
    var mark := [marks[0]];
    CharConcat(Pad(f[0], widths[0]), Pad(g[0], widths[0]), mark + x, mark + y);
    if f[0] < g[0] {
      PadOrder(f[0], g[0], widths[0]);
    } else {
      CharConcat(mark, mark, x, y);
      RenderOrder(f[1..], g[1..], widths[1..], marks[1..]);
    }
  }

  lemma TwoDigits(n: nat)
    requires n < 100
    ensures |Pad(n, 2)| == 2
  {
    assert Pad(n / 10 / 10, 0) == "";
    assert |Pad(n / 10, 1)| == 1;
  }

  lemma FourDigits(n: nat)
    requires n < 10000
    ensures |Pad(n, 4)| == 4
  {
    TwoDigits(n / 100);
    assert n / 10 / 10 == n / 100;
    assert Pad(n, 4) == Pad(n / 10, 3) + [DIGITS[n % 10]];
  }

  function YearText(secs: nat): string {
    FieldsNatural(secs);
    Pad(Civil(secs / 86400).year, 4)
  }

  /** With year numbers of one width, an earlier instant has the smaller text. */
  lemma EarlierIsSmaller(a: nat, b: nat)
    requires a < b && |YearText(a)| == |YearText(b)|
    ensures TextLess(FormatTs(a), FormatTs(b))
  {
    FieldsOrder(a, b);
    FieldsNatural(a);
    FieldsNatural(b);
    forall i | 0 <= i < 6 ensures |Pad(Fields(a)[i], WIDTHS[i])| == |Pad(Fields(b)[i], WIDTHS[i])| {
      if i > 0 {
        TwoDigits(Fields(a)[i]);
        TwoDigits(Fields(b)[i]);
      }
    }
    RenderOrder(Fields(a), Fields(b), WIDTHS, MARKS);
  }

  lemma TextTotal(a: string, b: string)
    ensures !TextLess(a, a) && !(TextLess(a, b) && TextLess(b, a))
  {
    LexIrreflexive(CharLess, a);
    if TextLess(a, b) && TextLess(b, a) {
      LexTransitive(CharLess, a, b, a);
    }
  }

  lemma LastDays()
    ensures Civil((YEAR_10000 - 1) / 86400).year == 9999 && Civil(YEAR_10000 / 86400).year == 10000
  {
    hide Civil;
    var last := (YEAR_10000 - 1) / 86400;
    CivilAt(last, Place(24, 3, 24, 3, 305));
    CivilAt(last + 1, Place(24, 3, 24, 3, 306));
  }

  lemma YearBefore10000(secs: nat)
    requires secs < YEAR_10000
    ensures |YearText(secs)| == 4
  {
    hide Civil;
    FieldsNatural(secs);
    LastDays();
    var last := (YEAR_10000 - 1) / 86400;
    if secs / 86400 < last {
      CivilOrder(secs / 86400, last);
    }
    CivilYear(secs / 86400);
    FourDigits(Civil(secs / 86400).year);
  }

  /** Through the year 9999 the order of the texts is the order of the instants. */
  lemma TextOrderIsTimeOrder(a: nat, b: nat)
    requires a < YEAR_10000 && b < YEAR_10000
    ensures TextLess(FormatTs(a), FormatTs(b)) <==> a < b
  {
    YearBefore10000(a);
    YearBefore10000(b);
    TextTotal(FormatTs(a), FormatTs(b));
    if a < b {
      EarlierIsSmaller(a, b);
    } else if b < a {
      EarlierIsSmaller(b, a);
    }
  }

  lemma FirstDigit(n: nat, width: nat)
    requires n >= 10 || width >= 2
    ensures Pad(n, width) != "" && Pad(n / 10, if width > 0 then width - 1 else 0) != ""
    ensures Pad(n, width)[0] == Pad(n / 10, if width > 0 then width - 1 else 0)[0]
  {
  }

  lemma LeadingDigits()
    ensures Pad(10000, 4) != "" && Pad(10000, 4)[0] == '1' && Pad(9999, 4) != "" && Pad(9999, 4)[0] == '9'
  {
    FirstDigit(10000, 4);
    FirstDigit(1000, 3);
    FirstDigit(100, 2);
    FirstDigit(10, 1);
    FirstDigit(9999, 4);
    FirstDigit(999, 3);
    FirstDigit(99, 2);
  }

  lemma StartsWithYear(secs: nat)
    ensures YearText(secs) <= FormatTs(secs)
  {
    hide Civil;
    FieldsNatural(secs);
  }

  /** The first second of the year 10000 sorts before the last second of the year 9999. */
  lemma OrderBreaksAtYear10000()
    ensures TextLess(FormatTs(YEAR_10000), FormatTs(YEAR_10000 - 1))
  {
    hide Civil;
    hide Fields;
    hide FormatTs;
    LastDays();
    LeadingDigits();
    StartsWithYear(YEAR_10000);
    StartsWithYear(YEAR_10000 - 1);
  }
}
