/**
  The ISO 8601 text in which every instant is stored: its printer, its two parsers, and why comparing text compares
  time.
  */
module Timestamps {
  import opened Wrappers

  /** A UTC date and time as `datetime` holds it. */
  datatype Instant = Instant(year: nat, month: nat, day: nat, hour: nat, minute: nat, second: nat, micro: nat)

  predicate IsLeap(year: nat) {
    year % 4 == 0 && (year % 100 != 0 || year % 400 == 0)
  }

  function MonthLength(year: nat, month: nat): nat {
    if month == 2 then if IsLeap(year) then 29 else 28
    else if month in {4, 6, 9, 11} then 30
    else 31
  }

  predicate Valid(i: Instant) {
    && 1 <= i.year <= 9999 && 1 <= i.month <= 12 && 1 <= i.day <= MonthLength(i.year, i.month)
    && i.hour < 24 && i.minute < 60 && i.second < 60 && i.micro < 1_000_000
  }

  // ---- time -------------------------------------------------------------------------

  function YearLength(year: nat): nat {
    if IsLeap(year) then 366 else 365
  }

  function DaysBeforeYear(year: nat): nat {
    if year <= 1 then 0 else DaysBeforeYear(year - 1) + YearLength(year - 1)
  }

  function DaysBeforeMonth(year: nat, month: nat): nat {
    if month <= 1 then 0 else DaysBeforeMonth(year, month - 1) + MonthLength(year, month - 1)
  }

  function Day(year: nat, month: nat, day: nat): nat {
    DaysBeforeYear(year) + DaysBeforeMonth(year, month) + day
  }

  /** Microseconds on the proleptic Gregorian time line: two instants are that far apart. */
  function Micros(i: Instant): nat {
    (((Day(i.year, i.month, i.day) * 24 + i.hour) * 60 + i.minute) * 60 + i.second) * 1_000_000 + i.micro
  }

  // ---- text -------------------------------------------------------------------------------

  function DigitChar(d: nat): char
    requires d < 10
  {
    '0' + d as char
  }

  predicate IsDigit(c: char) {
    '0' <= c <= '9'
  }

  predicate AllDigits(s: string) {
    forall k :: 0 <= k < |s| ==> IsDigit(s[k])
  }

  /** The last `width` decimal digits, with leading zeros. */
  function Digits(n: nat, width: nat): (s: string)
    ensures |s| == width && AllDigits(s)
  {
    if width == 0 then "" else Digits(n / 10, width - 1) + [DigitChar(n % 10)]
  }

  function Value(s: string): nat
    requires AllDigits(s)
  {
    if s == "" then 0 else Value(s[..|s| - 1]) * 10 + (s[|s| - 1] as nat - '0' as nat)
  }

  function Pow10(n: nat): nat {
    if n == 0 then 1 else 10 * Pow10(n - 1)
  }

  function DatePart(i: Instant): string {
    Digits(i.year, 4) + "-" + Digits(i.month, 2) + "-" + Digits(i.day, 2)
  }

  function TimePart(i: Instant): string {
    Digits(i.hour, 2) + ":" + Digits(i.minute, 2) + ":" + Digits(i.second, 2)
  }

  function Head(i: Instant): string {
    DatePart(i) + "T" + TimePart(i)
  }

  /** `isoformat` leaves a zero fraction out. */
  function Tail(i: Instant): string {
    if i.micro == 0 then "+00:00" else "." + (Digits(i.micro, 6) + "+00:00")
  }

  /** What `now_iso` writes. */
  function NowIso(i: Instant): string {
    Head(i) + Tail(i)
  }

  // ---- comparing text compares time -------------------------------------------------------------

  /** Code point order, a prefix first: how SQLite compares the stored text. */
  predicate Before(s: string, t: string) {
    if t == "" then false
    else if s == "" then true
    else if s[0] != t[0] then s[0] < t[0]
    else Before(s[1..], t[1..])
  }

  lemma {:induction false} BeforeJoined(a: string, b: string, c: string, d: string)
    requires |a| == |c|
    ensures Before(a + b, c + d) <==> Before(a, c) || (a == c && Before(b, d))
  {
    if a == "" {
      assert a + b == b && c + d == d;
    } else {
      BeforeJoined(a[1..], b, c[1..], d);
      assert (a + b)[1..] == a[1..] + b && (c + d)[1..] == c[1..] + d;
      assert a == c <==> a[0] == c[0] && a[1..] == c[1..] by {
        assert a == [a[0]] + a[1..] && c == [c[0]] + c[1..];
      }
    }
  }

  lemma {:induction false} ValueOfDigits(n: nat, width: nat)
    requires n < Pow10(width)
    ensures Value(Digits(n, width)) == n
  {
    if width > 0 {
      ValueOfDigits(n / 10, width - 1);
      assert Digits(n, width)[..width - 1] == Digits(n / 10, width - 1);
    }
  }

  /** Numbers of one width: the text order is the number order. */
  lemma {:induction false} DigitsOrder(m: nat, n: nat, width: nat)
    requires m < Pow10(width) && n < Pow10(width)
    ensures Before(Digits(m, width), Digits(n, width)) <==> m < n
    ensures Digits(m, width) == Digits(n, width) <==> m == n
  {
    ValueOfDigits(m, width);
    ValueOfDigits(n, width);
    if width > 0 {
      DigitsOrder(m / 10, n / 10, width - 1);
      BeforeJoined(Digits(m / 10, width - 1), [DigitChar(m % 10)], Digits(n / 10, width - 1), [DigitChar(n % 10)]);
      assert Before([DigitChar(m % 10)], [DigitChar(n % 10)]) <==> m % 10 < n % 10;
    }
  }

  /** Number fields of fixed width, each followed by a mark. */
  datatype Fields = End | Field(value: nat, width: nat, mark: string, rest: Fields)

  function Text(f: Fields): string {
    match f
    case End => ""
    case Field(value, width, mark, rest) => Digits(value, width) + mark + Text(rest)
  }

  predicate Alike(a: Fields, b: Fields) {
    if a.End? || b.End? then a == b
    else
      && a.width == b.width && a.mark == b.mark && a.value < Pow10(a.width) && b.value < Pow10(b.width)
      && Alike(a.rest, b.rest)
  }

  /** The first field that differs decides; -1 for lower, 0 for equal, 1 for higher. */
  function Compare(a: Fields, b: Fields): int
    requires Alike(a, b)
  {
    if a.End? then 0
    else if a.value < b.value then -1
    else if a.value > b.value then 1
    else Compare(a.rest, b.rest)
  }

  lemma {:induction false} FieldsOrder(a: Fields, x: string, b: Fields, y: string)
    requires Alike(a, b)
    ensures Before(Text(a) + x, Text(b) + y) <==> Compare(a, b) < 0 || (Compare(a, b) == 0 && Before(x, y))
  {
    if a.End? {
      assert Text(a) + x == x && Text(b) + y == y;
    } else {
      DigitsOrder(a.value, b.value, a.width);
      FieldsOrder(a.rest, x, b.rest, y);
      MarkedOrder(Digits(a.value, a.width), Digits(b.value, b.width), a.mark, Text(a.rest) + x, Text(b.rest) + y);
      FirstField(a, x);
      FirstField(b, y);
    }
  }

  lemma FirstField(a: Fields, x: string)
    requires a.Field?
    ensures Text(a) + x == Digits(a.value, a.width) + a.mark + (Text(a.rest) + x)
  {
  }

  lemma MarkedOrder(f: string, g: string, mark: string, x: string, y: string)
    requires |f| == |g|
    ensures Before(f + mark + x, g + mark + y) <==> Before(f, g) || (f == g && Before(x, y))
  {
    BeforeJoined(f, mark + x, g, mark + y);
    BeforeJoined(mark, x, mark, y);
    NotBeforeItself(mark);
    assert f + mark + x == f + (mark + x) && g + mark + y == g + (mark + y);
  }

  lemma {:induction false} NotBeforeItself(s: string)
    ensures !Before(s, s)
  {
    if s != "" {
      NotBeforeItself(s[1..]);
    }
  }

  // ---- time order ---------------------------------------------------------------------------

  function ClockFields(i: Instant): Fields {
    Field(i.hour, 2, ":", Field(i.minute, 2, ":", Field(i.second, 2, "", End)))
  }

  function FieldsOf(i: Instant): Fields {
    Field(i.year, 4, "-", Field(i.month, 2, "-", Field(i.day, 2, "T", ClockFields(i))))
  }

  lemma HeadIsText(i: Instant)
    ensures Head(i) == Text(FieldsOf(i))
  {
    var f := FieldsOf(i);
    assert Text(End) == "";
    assert Text(f.rest.rest.rest.rest.rest) == Digits(i.second, 2);
    assert Text(f.rest.rest.rest.rest) == Digits(i.minute, 2) + ":" + Digits(i.second, 2);
    assert Text(f.rest.rest.rest) == TimePart(i);
    assert Text(f.rest.rest) == Digits(i.day, 2) + "T" + TimePart(i);
    assert Text(f.rest) == Digits(i.month, 2) + "-" + (Digits(i.day, 2) + "T" + TimePart(i));
  }

  /** The calendar's order: the first field that differs decides. */
  predicate Earlier(a: Instant, b: Instant) {
    a.year < b.year || (a.year == b.year &&
    (a.month < b.month || (a.month == b.month &&
    (a.day < b.day || (a.day == b.day &&
    (a.hour < b.hour || (a.hour == b.hour &&
    (a.minute < b.minute || (a.minute == b.minute &&
    (a.second < b.second || (a.second == b.second && a.micro < b.micro)))))))))))
  }

  lemma {:induction false} YearsAdd(year: nat, later: nat)
    requires 1 <= year < later
    ensures DaysBeforeYear(year) + YearLength(year) <= DaysBeforeYear(later)
  {
    if year + 1 < later {
      YearsAdd(year, later - 1);
    }
  }

  lemma {:induction false} MonthsAdd(year: nat, month: nat, later: nat)
    requires 1 <= month < later
    ensures DaysBeforeMonth(year, month) + MonthLength(year, month) <= DaysBeforeMonth(year, later)
  {
    if month + 1 < later {
      MonthsAdd(year, month, later - 1);
    }
  }

  lemma MonthsFillTheYear(year: nat)
    ensures DaysBeforeMonth(year, 13) == YearLength(year)
  {
    var leap := if IsLeap(year) then 1 else 0;
    assert DaysBeforeMonth(year, 2) == 31;
    assert DaysBeforeMonth(year, 3) == 59 + leap;
    assert DaysBeforeMonth(year, 5) == 120 + leap;
    assert DaysBeforeMonth(year, 7) == 181 + leap;
    assert DaysBeforeMonth(year, 9) == 243 + leap;
    assert DaysBeforeMonth(year, 11) == 304 + leap;
  }

  /** The calendar is the Gregorian one: days before a year in closed form, and before a month by the table. */
  lemma {:induction false} CalendarIsGregorian(year: nat)
    requires year >= 1
    ensures DaysBeforeYear(year) == 365 * (year - 1) + (year - 1) / 4 - (year - 1) / 100 + (year - 1) / 400
  {
    if year > 1 {
      CalendarIsGregorian(year - 1);
      LeapDays(year - 1);
    }
  }

  lemma LeapDays(last: nat)
    requires last >= 1
    ensures last / 4 - last / 100 + last / 400 ==
            (last - 1) / 4 - (last - 1) / 100 + (last - 1) / 400 + if IsLeap(last) then 1 else 0
  {
    Steps4(last);
    Steps100(last);
    Steps400(last);
    assert last % 100 == 0 ==> last % 4 == 0;
    assert last % 400 == 0 ==> last % 100 == 0;
  }

  lemma Steps4(n: nat)
    requires n >= 1
    ensures n / 4 == (n - 1) / 4 + if n % 4 == 0 then 1 else 0
  {
  }

  lemma Steps100(n: nat)
    requires n >= 1
    ensures n / 100 == (n - 1) / 100 + if n % 100 == 0 then 1 else 0
  {
  }

  lemma Steps400(n: nat)
    requires n >= 1
    ensures n / 400 == (n - 1) / 400 + if n % 400 == 0 then 1 else 0
  {
  }

  const BEFORE_MONTH: seq<nat> := [0, 31, 59, 90, 120, 151, 181, 212, 243, 273, 304, 334, 365]

  lemma MonthsAreGregorian(year: nat, month: nat)
    requires 1 <= month <= 13
    ensures var leap := DaysBeforeYear(year + 1) - DaysBeforeYear(year) == 366;
            year >= 1 ==>
              DaysBeforeMonth(year, month) == BEFORE_MONTH[month - 1] + if leap && month > 2 then 1 else 0
  {
    var extra := if IsLeap(year) then 1 else 0;
    assert DaysBeforeMonth(year, 1) == 0;
    assert DaysBeforeMonth(year, 2) == 31;
    assert DaysBeforeMonth(year, 3) == 59 + extra;
    assert DaysBeforeMonth(year, 4) == 90 + extra;
    assert DaysBeforeMonth(year, 5) == 120 + extra;
    assert DaysBeforeMonth(year, 6) == 151 + extra;
    assert DaysBeforeMonth(year, 7) == 181 + extra;
    assert DaysBeforeMonth(year, 8) == 212 + extra;
    assert DaysBeforeMonth(year, 9) == 243 + extra;
    assert DaysBeforeMonth(year, 10) == 273 + extra;
    assert DaysBeforeMonth(year, 11) == 304 + extra;
    assert DaysBeforeMonth(year, 12) == 334 + extra;
    assert DaysBeforeMonth(year, 13) == 365 + extra;
  }

  /** The time line, counted out. */
  lemma MicrosCountedOut(i: Instant)
    requires Valid(i)
    ensures var before := i.year - 1;
            Micros(i) == (365 * before + before / 4 - before / 100 + before / 400
                          + DaysBeforeMonth(i.year, i.month) + i.day) * 86_400_000_000
                         + i.hour * 3_600_000_000 + i.minute * 60_000_000 + i.second * 1_000_000 + i.micro
  {
    CalendarIsGregorian(i.year);
  }

  lemma EarlierDay(a: Instant, b: Instant)
    requires Valid(a) && Valid(b)
    requires a.year < b.year || (a.year == b.year && (a.month < b.month || (a.month == b.month && a.day < b.day)))
    ensures Day(a.year, a.month, a.day) < Day(b.year, b.month, b.day)
  {
    if a.year < b.year {
      YearsAdd(a.year, b.year);
      MonthsFillTheYear(a.year);
      MonthsAdd(a.year, a.month, 13);
    } else if a.month < b.month {
      MonthsAdd(a.year, a.month, b.month);
    }
  }

  /** The calendar's order is the order on the time line. */
  lemma EarlierIsLess(a: Instant, b: Instant)
    requires Valid(a) && Valid(b)
    ensures Earlier(a, b) <==> Micros(a) < Micros(b)
  {
    var x, y := Day(a.year, a.month, a.day), Day(b.year, b.month, b.day);
    if a.year == b.year && a.month == b.month && a.day == b.day {
      RadixOrder(x, a, b);
    } else if Earlier(a, b) {
      EarlierDay(a, b);
      DayDecides(x, a, y, b);
    } else {
      EarlierDay(b, a);
      DayDecides(y, b, x, a);
    }
  }

  lemma DayDecides(x: nat, a: Instant, y: nat, b: Instant)
    requires Valid(a) && Valid(b) && x < y
    ensures (((x * 24 + a.hour) * 60 + a.minute) * 60 + a.second) * 1_000_000 + a.micro
            < (((y * 24 + b.hour) * 60 + b.minute) * 60 + b.second) * 1_000_000 + b.micro
  {
  }

  lemma RadixOrder(x: nat, a: Instant, b: Instant)
    requires Valid(a) && Valid(b) && a.year == b.year && a.month == b.month && a.day == b.day
    ensures Earlier(a, b) <==>
              (((x * 24 + a.hour) * 60 + a.minute) * 60 + a.second) * 1_000_000 + a.micro
              < (((x * 24 + b.hour) * 60 + b.minute) * 60 + b.second) * 1_000_000 + b.micro
  {
  }

  /** A missing fraction sorts before any: '+' comes before '.'. */
  lemma TailOrder(a: Instant, b: Instant)
    requires Valid(a) && Valid(b)
    ensures Before(Tail(a), Tail(b)) <==> a.micro < b.micro
  {
    NotBeforeItself("+00:00");
    assert a.micro == 0 ==> Tail(a) == "+00:00";
    assert b.micro == 0 ==> Tail(b) == "+00:00";
    assert Tail(a)[0] == if a.micro == 0 then '+' else '.';
    assert Tail(b)[0] == if b.micro == 0 then '+' else '.';
    if a.micro > 0 && b.micro > 0 {
      DigitsOrder(a.micro, b.micro, 6);
      MarkedTail(Digits(a.micro, 6), Digits(b.micro, 6));
    }
  }

  lemma MarkedTail(f: string, g: string)
    requires |f| == |g|
    ensures Before("." + (f + "+00:00"), "." + (g + "+00:00")) <==> Before(f, g)
  {
    BeforeJoined(".", f + "+00:00", ".", g + "+00:00");
    BeforeJoined(f, "+00:00", g, "+00:00");
    NotBeforeItself("+00:00");
    NotBeforeItself(".");
  }

  /** Printed instants, though of different lengths, compare as text exactly as they compare in time. */
  lemma TextOrderIsTimeOrder(a: Instant, b: Instant)
    requires Valid(a) && Valid(b)
    ensures Before(NowIso(a), NowIso(b)) <==> Micros(a) < Micros(b)
  {
    HeadIsText(a);
    HeadIsText(b);
    FieldsAlike(a, b);
    FieldsOrder(FieldsOf(a), Tail(a), FieldsOf(b), Tail(b));
    TailOrder(a, b);
    ComparedIsEarlier(a, b);
    EarlierIsLess(a, b);
  }

  lemma FieldsAlike(a: Instant, b: Instant)
    requires Valid(a) && Valid(b)
    ensures Alike(ClockFields(a), ClockFields(b)) && Alike(FieldsOf(a), FieldsOf(b))
  {
    PowersOfTen();
    assert Alike(ClockFields(a).rest.rest, ClockFields(b).rest.rest);
    assert Alike(ClockFields(a), ClockFields(b));
    assert Alike(FieldsOf(a).rest.rest, FieldsOf(b).rest.rest);
  }

  lemma ComparedIsEarlier(a: Instant, b: Instant)
    requires Valid(a) && Valid(b) && Alike(ClockFields(a), ClockFields(b)) && Alike(FieldsOf(a), FieldsOf(b))
    ensures var c := Compare(FieldsOf(a), FieldsOf(b));
            c < 0 || (c == 0 && a.micro < b.micro) <==> Earlier(a, b)
  {
    var x, y := FieldsOf(a), FieldsOf(b);
    assert Compare(x, y) == if a.year != b.year then Sign(a.year, b.year) else Compare(x.rest, y.rest);
    assert Compare(x.rest, y.rest) == if a.month != b.month then Sign(a.month, b.month)
      else Compare(x.rest.rest, y.rest.rest);
    assert Compare(x.rest.rest, y.rest.rest) ==
           if a.day != b.day then Sign(a.day, b.day) else Compare(ClockFields(a), ClockFields(b));
    ClockCompared(a, b);
  }

  function Sign(m: nat, n: nat): int {
    if m < n then -1 else if m > n then 1 else 0
  }

  lemma ClockCompared(a: Instant, b: Instant)
    requires Alike(ClockFields(a), ClockFields(b))
    ensures Compare(ClockFields(a), ClockFields(b)) ==
            if a.hour != b.hour then Sign(a.hour, b.hour)
            else if a.minute != b.minute then Sign(a.minute, b.minute)
            else Sign(a.second, b.second)
  {
    var x, y := ClockFields(a), ClockFields(b);
    assert Compare(x.rest.rest, y.rest.rest) == Sign(a.second, b.second);
    assert Compare(x.rest, y.rest) == if a.minute != b.minute then Sign(a.minute, b.minute)
      else Compare(x.rest.rest, y.rest.rest);
  }

  // ---- reading the text ------------------------------------------------------------------------

  /** A UTC offset, or none on a naive datetime. */
  datatype Offset = Naive | Utc(seconds: int)

  datatype Stamp = Stamp(local: Instant, offset: Offset)

  /** The instant a stamp names; a naive one is taken as UTC. */
  function TimeOf(s: Stamp): int {
    Micros(s.local) as int - match s.offset case Naive => 0 case Utc(seconds) => seconds * 1_000_000
  }

  function DigitRun(s: string): (n: nat)
    ensures n <= |s| && AllDigits(s[..n]) && (n < |s| ==> !IsDigit(s[n]))
  {
    if s == "" || !IsDigit(s[0]) then 0
    else
      var n := 1 + DigitRun(s[1..]);
      assert s[..n] == [s[0]] + s[1..][..n - 1];
      n
  }

  /** The first six digits of a fraction, zeros supplied; the rest is dropped. */
  function FractionValue(digits: string): nat
    requires AllDigits(digits)
  {
    if |digits| >= 6 then Value(digits[..6]) else Value(digits) * Pow10(6 - |digits|)
  }

  predicate DigitsAt(s: string, from: nat, to: nat) {
    to <= |s| && forall k :: from <= k < to ==> IsDigit(s[k])
  }

  function NumberAt(s: string, from: nat, to: nat): nat
    requires DigitsAt(s, from, to)
  {
    if to <= from then 0 else NumberAt(s, from, to - 1) * 10 + (s[to - 1] as nat - '0' as nat)
  }

  function ReadOffset(s: string): Option<Offset> {
    if s == "" then Some(Naive)
    else if s == "Z" then Some(Utc(0))
    else if |s| == 6 && (s[0] == '+' || s[0] == '-') && DigitsAt(s, 1, 3) && s[3] == ':' && DigitsAt(s, 4, 6)
            && NumberAt(s, 1, 3) < 24 && NumberAt(s, 4, 6) < 60 then
      var seconds := NumberAt(s, 1, 3) * 3600 + NumberAt(s, 4, 6) * 60;
      Some(Utc(if s[0] == '+' then seconds else -seconds))
    else None
  }

  /** An optional fraction of at least one digit, then the offset. */
  function ReadTail(s: string): Option<(nat, Offset)> {
    if s != "" && (s[0] == '.' || s[0] == ',') then
      var rest := s[1..];
      var n := DigitRun(rest);
      if n == 0 then None
      else
        match ReadOffset(rest[n..])
        case None => None
        case Some(offset) => Some((FractionValue(rest[..n]), offset))
    else
      match ReadOffset(s)
      case None => None
      case Some(offset) => Some((0, offset))
  }

  predicate HeadShape(s: string) {
    && |s| >= 19 && s[4] == '-' && s[7] == '-' && s[13] == ':' && s[16] == ':'
    && DigitsAt(s, 0, 4) && DigitsAt(s, 5, 7) && DigitsAt(s, 8, 10)
    && DigitsAt(s, 11, 13) && DigitsAt(s, 14, 16) && DigitsAt(s, 17, 19)
  }

  function HeadInstant(s: string, micro: nat): Instant
    requires HeadShape(s)
  {
    Instant(NumberAt(s, 0, 4), NumberAt(s, 5, 7), NumberAt(s, 8, 10),
            NumberAt(s, 11, 13), NumberAt(s, 14, 16), NumberAt(s, 17, 19), micro)
  }

  /** `datetime.fromisoformat` on full extended dates and times, with any one character between the two. */
  function FromIso(s: string): Option<Stamp> {
    if !HeadShape(s) then None
    else
      match ReadTail(s[19..])
      case None => None
      case Some((micro, offset)) =>
        var i := HeadInstant(s, micro);
        if Valid(i) then Some(Stamp(i, offset)) else None
  }

  const FIRST: Instant := Instant(1, 1, 1, 0, 0, 0, 0)
  const LAST: Instant := Instant(9999, 12, 31, 23, 59, 59, 999_999)

  /** What a `datetime` can hold. */
  predicate Representable(time: int) {
    Micros(FIRST) <= time <= Micros(LAST)
  }

  /** The code refuses with None; converting to UTC may instead raise an OverflowError, which it does not catch. */
  datatype Parsed = Refused | Overflows | Read(time: int)

  function ParseIsoStrictUtc(value: Option<string>): Parsed {
    if value.None? || value.value == "" then Refused
    else
      match FromIso(value.value)
      case None => Refused
      case Some(stamp) => if Representable(TimeOf(stamp)) then Read(TimeOf(stamp)) else Overflows
  }

  /** The text has the part at that place. */
  predicate At(s: string, from: nat, part: string) {
    from + |part| <= |s| && forall k :: from <= k < from + |part| ==> s[k] == part[k - from]
  }

  /** Digits read back as the number they were written for, wherever they stand. */
  lemma {:induction false} NumberRead(s: string, from: nat, n: nat, width: nat)
    requires n < Pow10(width) && At(s, from, Digits(n, width))
    ensures DigitsAt(s, from, from + width) && NumberAt(s, from, from + width) == n
  {
    if width > 0 {
      NumberRead(s, from, n / 10, width - 1);
      assert s[from + (width - 1)] == Digits(n, width)[width - 1];
    }
  }

  lemma DateRead(i: Instant, s: string)
    requires Valid(i) && At(s, 0, DatePart(i))
    ensures |s| >= 10 && s[4] == '-' && s[7] == '-' && DigitsAt(s, 0, 4) && DigitsAt(s, 5, 7) && DigitsAt(s, 8, 10)
    ensures NumberAt(s, 0, 4) == i.year && NumberAt(s, 5, 7) == i.month && NumberAt(s, 8, 10) == i.day
  {
    PowersOfTen();
    NumberRead(s, 0, i.year, 4);
    NumberRead(s, 5, i.month, 2);
    NumberRead(s, 8, i.day, 2);
  }

  lemma TimeRead(i: Instant, s: string)
    requires Valid(i) && At(s, 11, TimePart(i))
    ensures |s| >= 19 && s[13] == ':' && s[16] == ':' && DigitsAt(s, 11, 13) && DigitsAt(s, 14, 16) &&
            DigitsAt(s, 17, 19)
    ensures NumberAt(s, 11, 13) == i.hour && NumberAt(s, 14, 16) == i.minute && NumberAt(s, 17, 19) == i.second
  {
    PowersOfTen();
    NumberRead(s, 11, i.hour, 2);
    NumberRead(s, 14, i.minute, 2);
    NumberRead(s, 17, i.second, 2);
  }

  lemma HeadRead(i: Instant, tail: string, micro: nat)
    requires Valid(i)
    ensures var s := Head(i) + tail;
            HeadShape(s) && s[19..] == tail && HeadInstant(s, micro) == i.(micro := micro)
  {
    var s := Head(i) + tail;
    assert At(s, 0, DatePart(i)) && At(s, 11, TimePart(i));
    DateRead(i, s);
    TimeRead(i, s);
  }

  /** How a stamp may say what its clock shows: nothing or a Z for UTC, or by how much it is ahead of UTC or behind. */
  datatype Zone = Unmarked | Zulu | Ahead(hours: nat, minutes: nat) | Behind(hours: nat, minutes: nat)

  predicate ValidZone(zone: Zone) {
    zone.Ahead? || zone.Behind? ==> zone.hours < 24 && zone.minutes < 60
  }

  function ZoneText(zone: Zone): string {
    match zone
    case Unmarked => ""
    case Zulu => "Z"
    case Ahead(hours, minutes) => "+" + (Digits(hours, 2) + ":" + Digits(minutes, 2))
    case Behind(hours, minutes) => "-" + (Digits(hours, 2) + ":" + Digits(minutes, 2))
  }

  /** Seconds ahead of UTC. */
  function Lead(zone: Zone): int {
    match zone
    case Ahead(hours, minutes) => hours * 3600 + minutes * 60
    case Behind(hours, minutes) => -(hours * 3600 + minutes * 60)
    case _ => 0
  }

  lemma ZoneRead(zone: Zone)
    requires ValidZone(zone)
    ensures ReadOffset(ZoneText(zone)) == Some(if zone.Unmarked? then Naive else Utc(Lead(zone)))
  {
    if zone.Ahead? || zone.Behind? {
      PowersOfTen();
      NumberRead(ZoneText(zone), 1, zone.hours, 2);
      NumberRead(ZoneText(zone), 4, zone.minutes, 2);
    }
  }

  /** The zone after a Z has been replaced. */
  function SpeltOut(zone: Zone): Zone {
    if zone.Zulu? then Ahead(0, 0) else zone
  }

  lemma UtcText()
    ensures ZoneText(Ahead(0, 0)) == "+00:00"
  {
    assert Digits(0, 1) == "0" && Digits(0, 2) == "00";
  }

  lemma {:induction false} RunRead(digits: string, rest: string)
    requires AllDigits(digits) && (rest == "" || !IsDigit(rest[0]))
    ensures DigitRun(digits + rest) == |digits|
  {
    if digits == "" {
      assert digits + rest == rest;
    } else {
      RunRead(digits[1..], rest);
      assert (digits + rest)[1..] == digits[1..] + rest;
    }
  }

  /** A fraction of any length is read to the microsecond, whatever offset follows. */
  lemma FractionRead(digits: string, suffix: string)
    requires AllDigits(digits) && digits != "" && ReadOffset(suffix).Some?
    ensures ReadTail("." + (digits + suffix)) == Some((FractionValue(digits), ReadOffset(suffix).value))
  {
    assert ("." + (digits + suffix))[1..] == digits + suffix;
    RunRead(digits, suffix);
    assert (digits + suffix)[..|digits|] == digits && (digits + suffix)[|digits|..] == suffix;
  }

  lemma WholeRead(i: Instant, tail: string, micro: nat, offset: Offset)
    requires Valid(i) && ReadTail(tail) == Some((micro, offset)) && micro < 1_000_000
    ensures FromIso(Head(i) + tail) == Some(Stamp(i.(micro := micro), offset))
  {
    HeadRead(i, tail, micro);
  }

  // ---- the lenient parser -----------------------------------------------------------------------

  function StripLeft(s: string): string {
    if s != "" && Space(s[0]) then StripLeft(s[1..]) else s
  }

  function StripRight(s: string): string {
    if s != "" && Space(s[|s| - 1]) then StripRight(s[..|s| - 1]) else s
  }

  function Strip(s: string): string {
    StripRight(StripLeft(s))
  }

  function SpellOutZulu(s: string): string {
    if s != "" && s[|s| - 1] == 'Z' then s[..|s| - 1] + "+00:00" else s
  }

  /** The position of the first such character, or the length. */
  function Find(s: string, chars: set<char>): (n: nat)
    ensures n <= |s| && (n < |s| ==> s[n] in chars) && forall k :: 0 <= k < n ==> s[k] !in chars
  {
    if s == "" || s[0] in chars then 0 else 1 + Find(s[1..], chars)
  }

  const ZONE_MARKS: set<char> := {'+', '-', 'Z'}

  /** No more than six digits of fraction: what Python's parser can hold. */
  function CutFraction(s: string): string {
    var dot := Find(s, {'.'});
    if dot == |s| then s
    else
      var rest := s[dot + 1..];
      var zone := Find(rest, ZONE_MARKS);
      s[..dot] + ("." + ((if zone > 6 then rest[..6] else rest[..zone]) + rest[zone..]))
  }

  function ReadUtc(value: Option<string>): Option<int> {
    if value.None? || Strip(value.value) == "" then None
    else
      match FromIso(CutFraction(SpellOutZulu(Strip(value.value))))
      case None => None
      case Some(stamp) => Some(TimeOf(stamp))
  }

  /** `parse_iso_utc`, with its search for the zone suffix. */
  method ParseIsoUtc(value: Option<string>) returns (time: Option<int>)
    ensures time == ReadUtc(value)
  {
    if value.None? || value.value == "" {
      assert value.Some? ==> Strip(value.value) == "";
      return None;
    }
    var s := Strip(value.value);
    if s == "" {
      return None;
    }
    s := SpellOutZulu(s);
    var dot := Find(s, {'.'});
    if dot < |s| {
      var head, rest := s[..dot], s[dot + 1..];
      var zone: nat := |rest|;
      var marks := ['+', '-', 'Z'];
      for m := 0 to |marks|
        invariant zone <= |rest|
        invariant 0 <= zone && (zone < |rest| ==> rest[zone] in marks[..m])
        invariant forall k :: 0 <= k < zone ==> rest[k] !in marks[..m]
      {
        assert marks[..m + 1] == marks[..m] + [marks[m]];
        var i := Find(rest, {marks[m]});
        if i != |rest| && i < zone {
          zone := i;
        }
      }
      assert marks[..|marks|] == marks;
      FindIs(rest, ZONE_MARKS, zone);
      var fraction, suffix := rest[..zone], rest[zone..];
      assert (if |fraction| > 6 then fraction[..6] else fraction) == if zone > 6 then rest[..6] else rest[..zone];
      s := head + ("." + ((if |fraction| > 6 then fraction[..6] else fraction) + suffix));
    }
    var stamp := FromIso(s);
    time := if stamp.None? then None else Some(TimeOf(stamp.value));
  }

  lemma FindIs(s: string, chars: set<char>, n: nat)
    requires n <= |s| && (n < |s| ==> s[n] in chars) && forall k :: 0 <= k < n ==> s[k] !in chars
    ensures Find(s, chars) == n
  {
  }

  lemma {:induction false} StripLeftPadded(pad: string, s: string)
    requires (forall k :: 0 <= k < |pad| ==> Space(pad[k])) && s != "" && !Space(s[0])
    ensures StripLeft(pad + s) == s
  {
    if pad == "" {
      assert pad + s == s;
    } else {
      StripLeftPadded(pad[1..], s);
      assert (pad + s)[1..] == pad[1..] + s;
    }
  }

  lemma {:induction false} StripRightPadded(s: string, pad: string)
    requires (forall k :: 0 <= k < |pad| ==> Space(pad[k])) && s != "" && !Space(s[|s| - 1])
    ensures StripRight(s + pad) == s
  {
    if pad == "" {
      assert s + pad == s;
    } else {
      StripRightPadded(s, pad[..|pad| - 1]);
      assert (s + pad)[..|s + pad| - 1] == s + pad[..|pad| - 1];
    }
  }

  lemma StripPadded(left: string, s: string, right: string)
    requires (forall k :: 0 <= k < |left| ==> Space(left[k])) && (forall k :: 0 <= k < |right| ==> Space(right[k]))
    requires s != "" && !Space(s[0]) && !Space(s[|s| - 1])
    ensures Strip(left + s + right) == s
  {
    assert left + s + right == left + (s + right);
    StripLeftPadded(left, s + right);
    StripRightPadded(s, right);
  }

  /** A UTC stamp's text: its head, a fraction or none, and one of the ways to say UTC. */
  function Spelled(head: string, digits: string, suffix: string): string {
    head + SpelledTail(digits, suffix)
  }

  function SpelledTail(digits: string, suffix: string): string {
    if digits == "" then suffix else "." + (digits + suffix)
  }

  /** What matters of a head to the normalisation. */
  predicate Plain(head: string) {
    |head| == 19 && IsDigit(head[0]) && IsDigit(head[18]) && forall k :: 0 <= k < 19 ==> head[k] != '.'
  }

  lemma HeadIsPlain(i: Instant)
    ensures Plain(Head(i))
  {
    var d, t := DatePart(i), TimePart(i);
    assert Head(i)[0] == d[0] && Head(i)[18] == t[7];
    forall k | 0 <= k < 19 ensures Head(i)[k] != '.' {
      assert k < 10 ==> Head(i)[k] == d[k];
      assert k > 10 ==> Head(i)[k] == t[k - 11];
    }
  }

  /** What matters of the text of a zone. */
  predicate PlainZone(suffix: string) {
    && (forall k :: 0 <= k < |suffix| ==> suffix[k] != '.')
    && (suffix == "" || (suffix[0] in ZONE_MARKS && (suffix == "Z" || IsDigit(suffix[|suffix| - 1]))))
  }

  lemma ZoneIsPlain(zone: Zone)
    ensures PlainZone(ZoneText(zone)) && (ZoneText(zone) == "Z" <==> zone.Zulu?)
  {
  }

  lemma SpelledEnds(head: string, digits: string, suffix: string)
    requires Plain(head) && AllDigits(digits) && PlainZone(suffix)
    ensures var s := Spelled(head, digits, suffix);
            |s| >= 19 && IsDigit(s[0]) && (if suffix == "Z" then s[|s| - 1] == 'Z' else IsDigit(s[|s| - 1]))
  {
  }

  lemma ZuluSpelledOut(head: string, digits: string, zone: Zone)
    requires Plain(head) && AllDigits(digits)
    ensures SpellOutZulu(Spelled(head, digits, ZoneText(zone))) == Spelled(head, digits, ZoneText(SpeltOut(zone)))
  {
    ZoneIsPlain(zone);
    SpelledEnds(head, digits, ZoneText(zone));
    if zone.Zulu? {
      UtcText();
      var s := Spelled(head, digits, "Z");
      var bare := head + (if digits == "" then "" else "." + digits);
      assert s[..|s| - 1] == bare && bare + "+00:00" == Spelled(head, digits, "+00:00");
    }
  }

  function FirstSix(digits: string): string {
    if |digits| > 6 then digits[..6] else digits
  }

  lemma FractionCut(head: string, digits: string, suffix: string)
    requires Plain(head) && AllDigits(digits) && PlainZone(suffix) && suffix != "Z"
    ensures CutFraction(Spelled(head, digits, suffix)) == Spelled(head, FirstSix(digits), suffix)
  {
    if digits == "" {
      DotFound(head + suffix, |head + suffix|);
    } else {
      FindIs(digits + suffix, ZONE_MARKS, |digits|);
      DotFound(head + ("." + (digits + suffix)), 19);
      CutAt(head, digits + suffix, |digits|);
      assert (digits + suffix)[|digits|..] == suffix;
      assert (if |digits| > 6 then (digits + suffix)[..6] else (digits + suffix)[..|digits|]) == FirstSix(digits);
    }
  }

  lemma DotFound(s: string, n: nat)
    requires n <= |s| && (n < |s| ==> s[n] == '.') && forall k :: 0 <= k < n ==> s[k] != '.'
    ensures Find(s, {'.'}) == n
  {
  }

  lemma CutAt(head: string, rest: string, zone: nat)
    requires Find(head + ("." + rest), {'.'}) == |head| && Find(rest, ZONE_MARKS) == zone
    ensures CutFraction(head + ("." + rest)) ==
            head + ("." + ((if zone > 6 then rest[..6] else rest[..zone]) + rest[zone..]))
  {
    var s := head + ("." + rest);
    assert s[..|head|] == head && s[|head| + 1..] == rest;
  }

  /** Padding, a Z and spare fraction digits are gone before Python's parser looks. */
  lemma Normalised(left: string, head: string, digits: string, zone: Zone, right: string)
    requires Plain(head) && AllDigits(digits)
    requires (forall k :: 0 <= k < |left| ==> Space(left[k])) && (forall k :: 0 <= k < |right| ==> Space(right[k]))
    ensures var s := Strip(left + Spelled(head, digits, ZoneText(zone)) + right);
            s != "" && CutFraction(SpellOutZulu(s)) == Spelled(head, FirstSix(digits), ZoneText(SpeltOut(zone)))
  {
    ZoneIsPlain(zone);
    SpelledEnds(head, digits, ZoneText(zone));
    StripPadded(left, Spelled(head, digits, ZoneText(zone)), right);
    ZuluSpelledOut(head, digits, zone);
    ZoneIsPlain(SpeltOut(zone));
    FractionCut(head, digits, ZoneText(SpeltOut(zone)));
  }

  /** The instant a spelled stamp means: its local time, cut to the microsecond, less its lead over UTC. */
  function Meant(i: Instant, digits: string, zone: Zone): int
    requires AllDigits(digits)
  {
    MeantAt(i, FractionValue(digits), zone)
  }

  function MeantAt(i: Instant, micro: nat, zone: Zone): int {
    Micros(i.(micro := micro)) - Lead(zone) * 1_000_000
  }

  lemma SpellingKeepsLead(i: Instant, micro: nat, zone: Zone)
    ensures MeantAt(i, micro, SpeltOut(zone)) == MeantAt(i, micro, zone)
  {
    assert Lead(SpeltOut(zone)) == Lead(zone);
  }

  lemma SpareDigits(i: Instant, digits: string, zone: Zone)
    requires AllDigits(digits)
    ensures Meant(i, FirstSix(digits), SpeltOut(zone)) == Meant(i, digits, zone)
  {
    CutKeepsValue(digits);
    SpellingKeepsLead(i, FractionValue(digits), zone);
  }

  lemma SpelledRead(i: Instant, digits: string, zone: Zone)
    requires Valid(i) && AllDigits(digits) && ValidZone(zone)
    ensures var stamp := FromIso(Spelled(Head(i), digits, ZoneText(zone)));
            stamp.Some? && TimeOf(stamp.value) == Meant(i, digits, zone)
  {
    var suffix := ZoneText(zone);
    ZoneRead(zone);
    CutKeepsValue(digits);
    if digits != "" {
      FractionRead(digits, suffix);
    }
    WholeRead(i, SpelledTail(digits, suffix), FractionValue(digits), ReadOffset(suffix).value);
  }

  // ---- and nothing else is read ------------------------------------------------------------------

  lemma {:induction false} NumberWritten(s: string, from: nat, to: nat)
    requires from <= to && DigitsAt(s, from, to)
    ensures Digits(NumberAt(s, from, to), to - from) == s[from..to] && NumberAt(s, from, to) < Pow10(to - from)
  {
    if from < to {
      NumberWritten(s, from, to - 1);
      var last := s[to - 1] as nat - '0' as nat;
      assert NumberAt(s, from, to) / 10 == NumberAt(s, from, to - 1) && NumberAt(s, from, to) % 10 == last;
      assert s[from..to] == s[from..to - 1] + [s[to - 1]];
    }
  }

  /** A date and a time with any one character between them. */
  lemma HeadWritten(s: string, micro: nat) returns (i: Instant)
    requires HeadShape(s)
    ensures i == HeadInstant(s, micro) && s[..19] == DatePart(i) + [s[10]] + TimePart(i)
  {
    i := HeadInstant(s, micro);
    NumberWritten(s, 0, 4);
    NumberWritten(s, 5, 7);
    NumberWritten(s, 8, 10);
    NumberWritten(s, 11, 13);
    NumberWritten(s, 14, 16);
    NumberWritten(s, 17, 19);
    assert s[..10] == DatePart(i) by {
      assert s[..10] == s[0..4] + "-" + s[5..7] + "-" + s[8..10];
    }
    assert s[11..19] == TimePart(i) by {
      assert s[11..19] == s[11..13] + ":" + s[14..16] + ":" + s[17..19];
    }
    assert s[..19] == s[..10] + [s[10]] + s[11..19];
  }

  lemma ZoneWritten(s: string) returns (zone: Zone)
    requires ReadOffset(s).Some?
    ensures ValidZone(zone) && s == ZoneText(zone)
    ensures ReadOffset(s) == Some(if zone.Unmarked? then Naive else Utc(Lead(zone)))
  {
    if s == "" {
      zone := Unmarked;
    } else if s == "Z" {
      zone := Zulu;
    } else {
      NumberWritten(s, 1, 3);
      NumberWritten(s, 4, 6);
      var hours, minutes := NumberAt(s, 1, 3), NumberAt(s, 4, 6);
      assert s == [s[0]] + (s[1..3] + ":" + s[4..6]);
      zone := if s[0] == '+' then Ahead(hours, minutes) else Behind(hours, minutes);
    }
  }

  lemma TailWritten(s: string) returns (digits: string, mark: char, zone: Zone)
    requires ReadTail(s).Some?
    ensures AllDigits(digits) && mark in {'.', ','} && ValidZone(zone)
    ensures s == if digits == "" then ZoneText(zone) else [mark] + (digits + ZoneText(zone))
    ensures ReadTail(s).value == (FractionValue(digits), if zone.Unmarked? then Naive else Utc(Lead(zone)))
  {
    if s != "" && (s[0] == '.' || s[0] == ',') {
      var rest := s[1..];
      var n := DigitRun(rest);
      digits, mark := rest[..n], s[0];
      zone := ZoneWritten(rest[n..]);
      assert rest == digits + rest[n..] && s == [mark] + rest;
    } else {
      digits, mark := "", '.';
      zone := ZoneWritten(s);
      CutKeepsValue("");
    }
  }

  /**
    Whatever Python's parser reads is a valid date and time with one character between them, a fraction or none behind
    a point or a comma, and a zone or none; and it reads it as that.
    */
  lemma OnlyStampsAreRead(s: string) returns (i: Instant, digits: string, mark: char, zone: Zone)
    requires FromIso(s).Some?
    ensures AllDigits(digits) && mark in {'.', ','} && ValidZone(zone) && Valid(i) && i.micro == FractionValue(digits)
    ensures |s| >= 19 && s[..19] == DatePart(i) + [s[10]] + TimePart(i)
    ensures s[19..] == if digits == "" then ZoneText(zone) else [mark] + (digits + ZoneText(zone))
    ensures TimeOf(FromIso(s).value) == Micros(i) - Lead(zone) * 1_000_000
  {
    digits, mark, zone := TailWritten(s[19..]);
    i := HeadWritten(s, FractionValue(digits));
  }

  lemma OwnTimeRepresentable(i: Instant)
    requires Valid(i)
    ensures Representable(Micros(i))
  {
    EarlierIsLess(i, FIRST);
    EarlierIsLess(LAST, i);
  }

  /**
    The strict parser reads every well-formed stamp, but for those whose offset takes them out of the years 1 to 9999:
    with a trailing Z and with a fraction of any length too, both of which its own documentation says it refuses.
    */
  lemma StrictReads(i: Instant, digits: string, zone: Zone)
    requires Valid(i) && AllDigits(digits) && ValidZone(zone)
    ensures var time := Meant(i, digits, zone);
            ParseIsoStrictUtc(Some(Spelled(Head(i), digits, ZoneText(zone)))) ==
            if Micros(FIRST) <= time <= Micros(LAST) then Read(time) else Overflows
    ensures Lead(zone) == 0 ==> Micros(FIRST) <= Meant(i, digits, zone) <= Micros(LAST)
  {
    SpelledRead(i, digits, zone);
    CutKeepsValue(digits);
    OwnTimeRepresentable(i.(micro := FractionValue(digits)));
  }

  /**
    The lenient parser reads a stamp however it is padded, whatever it says of its zone, and with any number of
    fraction digits: the instant is the local time written, cut to the microsecond, less the lead over UTC.
    */
  lemma LenientReads(left: string, i: Instant, digits: string, zone: Zone, right: string)
    requires Valid(i) && AllDigits(digits) && ValidZone(zone)
    requires (forall k :: 0 <= k < |left| ==> Space(left[k])) && (forall k :: 0 <= k < |right| ==> Space(right[k]))
    ensures ReadUtc(Some(left + Spelled(Head(i), digits, ZoneText(zone)) + right)) == Some(Meant(i, digits, zone))
  {
    var stamp := Spelled(Head(i), digits, ZoneText(zone));
    var text := Spelled(Head(i), FirstSix(digits), ZoneText(SpeltOut(zone)));
    HeadIsPlain(i);
    Normalised(left, Head(i), digits, zone, right);
    ReadUtcOf(left + stamp + right, text);
    SpelledRead(i, FirstSix(digits), SpeltOut(zone));
    SpareDigits(i, digits, zone);
  }

  lemma ReadUtcOf(value: string, text: string)
    requires Strip(value) != "" && CutFraction(SpellOutZulu(Strip(value))) == text
    ensures ReadUtc(Some(value)) == match FromIso(text) case None => None case Some(stamp) => Some(TimeOf(stamp))
  {
  }

  lemma CutKeepsValue(digits: string)
    requires AllDigits(digits)
    ensures FractionValue(FirstSix(digits)) == FractionValue(digits) < 1_000_000
    ensures digits == "" ==> FractionValue(digits) == 0
  {
    var six := FirstSix(digits);
    assert |digits| >= 6 ==> six[..6] == digits[..6] == six;
    ValueBound(six);
    PowersOfTen();
  }

  lemma PowersOfTen()
    ensures Pow10(0) == 1 && Pow10(1) == 10 && Pow10(2) == 100 && Pow10(3) == 1000
    ensures Pow10(4) == 10_000 && Pow10(5) == 100_000 && Pow10(6) == 1_000_000
  {
  }

  lemma {:induction false} ValueBound(s: string)
    requires AllDigits(s)
    ensures Value(s) < Pow10(|s|)
  {
    if s != "" {
      ValueBound(s[..|s| - 1]);
    }
  }

  /** The strict parser returns the printed instant. */
  lemma StrictReadsPrinted(i: Instant)
    requires Valid(i)
    ensures ParseIsoStrictUtc(Some(NowIso(i))) == Read(Micros(i))
  {
    var digits, zone := Printed(i);
    StrictReads(i, digits, zone);
    OwnTimeRepresentable(i);
  }

  /** And so does the lenient one. */
  lemma LenientReadsPrinted(i: Instant)
    requires Valid(i)
    ensures ReadUtc(Some(NowIso(i))) == Some(Micros(i))
  {
    var digits, zone := Printed(i);
    LenientReads("", i, digits, zone, "");
    Unpadded(NowIso(i));
  }

  lemma Unpadded(s: string)
    ensures "" + s + "" == s
  {
  }

  /** The printed text is one of those spellings. */
  lemma Printed(i: Instant) returns (digits: string, zone: Zone)
    requires Valid(i)
    ensures AllDigits(digits) && ValidZone(zone)
    ensures NowIso(i) == Spelled(Head(i), digits, ZoneText(zone)) && Meant(i, digits, zone) == Micros(i)
  {
    digits, zone := PrintedDigits(i.micro), Ahead(0, 0);
    UtcText();
    PrintedTail(i);
    PrintedMeans(i);
  }

  lemma PrintedTail(i: Instant)
    ensures Tail(i) == SpelledTail(PrintedDigits(i.micro), "+00:00")
  {
  }

  function PrintedDigits(micro: nat): (digits: string)
    ensures AllDigits(digits)
  {
    if micro == 0 then "" else Digits(micro, 6)
  }

  lemma PrintedMeans(i: Instant)
    requires Valid(i)
    ensures Meant(i, PrintedDigits(i.micro), Ahead(0, 0)) == Micros(i)
  {
    PrintedFraction(i.micro);
    assert i.(micro := i.micro) == i && Lead(Ahead(0, 0)) == 0;
    assert MeantAt(i, i.micro, Ahead(0, 0)) == Micros(i);
  }

  lemma PrintedFraction(micro: nat)
    requires micro < 1_000_000
    ensures FractionValue(PrintedDigits(micro)) == micro
  {
    PowersOfTen();
    ValueOfDigits(micro, 6);
    assert Digits(micro, 6)[..6] == Digits(micro, 6);
  }
}
