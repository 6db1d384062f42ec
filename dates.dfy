/**
 * Lease dates. Tenants are entered as MM-DD-YYYY text, stored as calendar dates and
 * shown in the ISO 8601 extended calendar-date form YYYY-MM-DD (ISO 8601:2004,
 * section 4.1.2.2). Both front ends reorder the text themselves, each with its own
 * helper, and each has its own copy of the month count that seeds a new balance.
 */
module Dates {
  import opened Wrappers
  import opened JavaText

  /** A calendar date as stored: year, month 1..12, day of month. */
  datatype Date = Date(year: int, month: int, day: int)

  /** What java.sql.Date.valueOf can produce: a year 0..9999, month 1..12, day 1..31. */
  predicate InSqlRange(d: Date)
  {
    0 <= d.year <= 9999 && 1 <= d.month <= 12 && 1 <= d.day <= 31
  }

  /**
   * java.sql.Date.valueOf: the year is the text before the first '-', the month the text
   * between it and the next '-', the day all the rest. Each is read with Integer.parseInt
   * (so a sign is allowed, and a part that is not a number throws NumberFormatException)
   * once the year has four characters and month and day one or two; a wrong shape, or a
   * month outside 1..12 or a day outside 1..31, throws IllegalArgumentException.
   */
  function SqlDateValueOf(s: string): (r: Result<Date, Exception>)
    ensures r.Success? ==> InSqlRange(r.value)
    ensures r.Failure? ==> r.error == IllegalArgument || r.error == NumberFormat
  {
    if '-' !in s then Failure(IllegalArgument)
    else
      var first := IndexOf(s, '-');
      var rest := s[first + 1..];
      if '-' !in rest then Failure(IllegalArgument)
      else
        var second := IndexOf(rest, '-');
        DateOfParts(s[..first], rest[..second], rest[second + 1..])
  }

  /** The checks valueOf makes once it has cut its text into year, month and day. */
  function DateOfParts(yyyy: string, mm: string, dd: string): (r: Result<Date, Exception>)
    requires '-' !in yyyy
    ensures r.Success? ==> InSqlRange(r.value)
  {
    if |yyyy| != 4 || !(1 <= |mm| <= 2) || !(1 <= |dd| <= 2) then Failure(IllegalArgument)
    else match (ParseInt(yyyy), ParseInt(mm), ParseInt(dd))
      case (Some(y), Some(m), Some(d)) =>
        YearPartBound(yyyy);
        if 1 <= m <= 12 && 1 <= d <= 31 then Success(Date(y, m, d)) else Failure(IllegalArgument)
      case _ => Failure(NumberFormat)
  }

  /** Parts of the right lengths that parse to an in-range date give that date. */
  lemma DateOfPartsOf(yyyy: string, mm: string, dd: string, d: Date)
    requires '-' !in yyyy && |yyyy| == 4 && 1 <= |mm| <= 2 && 1 <= |dd| <= 2
    requires ParseInt(yyyy) == Some(d.year) && ParseInt(mm) == Some(d.month) && ParseInt(dd) == Some(d.day)
    requires 1 <= d.month <= 12 && 1 <= d.day <= 31
    ensures DateOfParts(yyyy, mm, dd) == Success(d)
  {
  }

  /** Parts of the right lengths that parse, to a month or day out of range, are refused. */
  lemma DateOfPartsOutOfRange(yyyy: string, mm: string, dd: string)
    requires '-' !in yyyy && |yyyy| == 4 && 1 <= |mm| <= 2 && 1 <= |dd| <= 2
    requires ParseInt(yyyy).Some? && ParseInt(mm).Some? && ParseInt(dd).Some?
    requires !(1 <= ParseInt(mm).value <= 12 && 1 <= ParseInt(dd).value <= 31)
    ensures DateOfParts(yyyy, mm, dd) == Failure(IllegalArgument)
  {
  }

  /** A year part of four characters without '-' reads as 0..9999. */
  lemma YearPartBound(s: string)
    requires '-' !in s && |s| == 4 && ParseInt(s).Some?
    ensures 0 <= ParseInt(s).value <= 9999
  {
    var start := if s[0] == '+' then 1 else 0;
    var digits := s[start..];
    DigitsValueBound(digits);
    assert Pow10(3) == 1000;
    assert Pow10(4) == 10000;
  }

  /** A part that parses to a positive number has no '-' in it. */
  lemma PositivePartPlain(s: string)
    requires ParseInt(s).Some? && ParseInt(s).value > 0
    ensures '-' !in s
  {
    var digits := if s[0] == '+' then s[1..] else s[0..];
    assert s[0] != '-';
    DigitsExclude(digits, '-');
    assert s == [s[0]] + s[1..];
  }

  /** valueOf cuts y-m-d at its first two dashes when y and m have none. */
  lemma SqlDateValueOfJoin(y: string, m: string, d: string)
    requires '-' !in y && '-' !in m
    ensures SqlDateValueOf(y + "-" + m + "-" + d) == DateOfParts(y, m, d)
  {
    var s := y + "-" + m + "-" + d;
    var tail := m + "-" + d;
    assert s == y + ['-'] + tail;
    IndexOfAfter(y, '-', tail);
    assert s[..|y|] == y;
    assert s[|y| + 1..] == tail;
    IndexOfAfter(m, '-', d);
    assert tail[..|m|] == m;
    assert tail[|m| + 1..] == d;
  }

  /** Text valueOf accepts is y-m-d with dash-free parts, d being the whole rest. */
  lemma SqlDateShape(s: string) returns (y: string, m: string, d: string)
    requires SqlDateValueOf(s).Success?
    ensures '-' !in y && '-' !in m && '-' !in d && d != ""
    ensures s == y + "-" + m + "-" + d
    ensures ParseInt(y) == Some(SqlDateValueOf(s).value.year)
    ensures ParseInt(m) == Some(SqlDateValueOf(s).value.month)
    ensures ParseInt(d) == Some(SqlDateValueOf(s).value.day)
  {
    var first := IndexOf(s, '-');
    var rest := s[first + 1..];
    var second := IndexOf(rest, '-');
    y, m, d := s[..first], rest[..second], rest[second + 1..];
    assert rest == m + "-" + d;
    assert s == y + "-" + rest;
    PositivePartPlain(d);
  }

  // ---------------------------------------------------------------- the database's own conversion

  /** Whether year y has a 29 February in the Gregorian calendar. */
  predicate LeapYear(y: int)
  {
    y % 4 == 0 && (y % 100 != 0 || y % 400 == 0)
  }

  function DaysInMonth(y: int, m: int): int
    requires 1 <= m <= 12
  {
    if m == 2 then (if LeapYear(y) then 29 else 28)
    else if m == 4 || m == 6 || m == 9 || m == 11 then 30
    else 31
  }

  /** A day that exists on the calendar. */
  predicate CalendarDate(d: Date)
  {
    1 <= d.month <= 12 && 1 <= d.day <= DaysInMonth(d.year, d.month)
  }

  /**
   * The database's conversion of text bound to a DATE column (H2's
   * DateTimeUtils.parseDateValue): blanks are trimmed, a leading '+' is dropped, the year
   * runs to the first '-' after its first character (so it may be negative and have any
   * number of digits), then come month and day; each is read with Integer.parseInt and
   * the three must name a day on the calendar. Any failure is an SQLException (None).
   */
  function DbDate(text: string): (r: Option<Date>)
    ensures r.Some? ==> CalendarDate(r.value) && IsInt32(r.value.year)
  {
    var s := Trim(text);
    if |s| == 0 then None
    else DbDateBody(if s[0] == '+' then s[1..] else s)
  }

  /** The conversion after the optional '+'. */
  function DbDateBody(b: string): (r: Option<Date>)
    ensures r.Some? ==> CalendarDate(r.value) && IsInt32(r.value.year)
  {
    if |b| == 0 || '-' !in b[1..] then None
    else
      var yearEnd := 1 + IndexOf(b[1..], '-');
      var rest := b[yearEnd + 1..];
      if '-' !in rest then None
      else
        var monthEnd := IndexOf(rest, '-');
        CalendarOfParts(b[..yearEnd], rest[..monthEnd], rest[monthEnd + 1..])
  }

  /** Year, month and day parts that parse and name a day on the calendar. */
  function CalendarOfParts(yyyy: string, mm: string, dd: string): (r: Option<Date>)
    ensures r.Some? ==> CalendarDate(r.value) && IsInt32(r.value.year)
  {
    match (ParseInt(yyyy), ParseInt(mm), ParseInt(dd))
    case (Some(y), Some(m), Some(d)) => if CalendarDate(Date(y, m, d)) then Some(Date(y, m, d)) else None
    case _ => None
  }

  lemma CalendarOfPartsOf(yyyy: string, mm: string, dd: string, d: Date)
    requires ParseInt(yyyy) == Some(d.year) && ParseInt(mm) == Some(d.month) && ParseInt(dd) == Some(d.day)
    requires CalendarDate(d)
    ensures CalendarOfParts(yyyy, mm, dd) == Some(d)
  {
  }

  /** The database cuts y-m-d at the first dash past y's first character and the next one. */
  lemma DbDateBodyJoin(y: string, m: string, d: string)
    requires |y| > 0 && '-' !in y[1..] && '-' !in m
    ensures DbDateBody(y + "-" + m + "-" + d) == CalendarOfParts(y, m, d)
  {
    var b := y + "-" + m + "-" + d;
    var tail := m + "-" + d;
    assert b[1..] == y[1..] + ['-'] + tail;
    IndexOfAfter(y[1..], '-', tail);
    assert b[..|y|] == y;
    assert b[|y| + 1..] == tail;
    IndexOfAfter(m, '-', d);
    assert tail[..|m|] == m;
    assert tail[|m| + 1..] == d;
  }

  /** Text that starts with neither a blank nor '+' and ends with a digit reaches the body unchanged. */
  lemma DbDateOfPlain(y: string, m: string, d: string)
    requires |y| > 0 && !IsSpace(y[0]) && y[0] != '+' && '-' !in y && '-' !in m && |d| > 0 && IsDigit(d[|d| - 1])
    ensures DbDate(y + "-" + m + "-" + d) == CalendarOfParts(y, m, d)
  {
    var s := y + "-" + m + "-" + d;
    assert s[0] == y[0] && s[|s| - 1] == d[|d| - 1];
    TrimOfUnpadded(s);
    DbDateBodyJoin(y, m, d);
  }

  /** A number Integer.parseInt reads starts with a sign or digit and ends with a digit. */
  lemma ParseIntEnds(s: string)
    requires ParseInt(s).Some?
    ensures |s| > 0 && !IsSpace(s[0]) && IsDigit(s[|s| - 1])
  {
    var start := if s[0] == '-' || s[0] == '+' then 1 else 0;
    assert s[|s| - 1] == s[start..][|s| - 1 - start];
  }

  /** A '+' in front of digits does not change what Integer.parseInt reads. */
  lemma ParseIntPlus(s: string)
    requires |s| > 0 && s[0] == '+' && ParseInt(s).Some?
    ensures ParseInt(s[1..]) == ParseInt(s)
  {
    var t := s[1..];
    assert t[0..] == t;
  }

  /**
   * valueOf and the database's conversion read the same text to the same date when that
   * date is on the calendar; a day valueOf lets through past the month's end (30 February)
   * is refused by the database.
   */
  lemma ValueOfAgreesWithDb(s: string)
    requires SqlDateValueOf(s).Success?
    ensures DbDate(s) == (if CalendarDate(SqlDateValueOf(s).value) then Some(SqlDateValueOf(s).value) else None)
  {
    var y, m, d := SqlDateShape(s);
    ParseIntEnds(y);
    ParseIntEnds(d);
    if y[0] == '+' {
      SqlDateValueOfJoin(y, m, d);
      ParseIntPlus(y);
      DbDateOfSigned(y, m, d);
    } else {
      DbDateOfPlain(y, m, d);
    }
  }

  /** A year with a '+' in front is read from the digits after it. */
  lemma DbDateOfSigned(y: string, m: string, d: string)
    requires |y| > 1 && y[0] == '+' && '-' !in y && '-' !in m && |d| > 0 && IsDigit(d[|d| - 1])
    ensures DbDate(y + "-" + m + "-" + d) == CalendarOfParts(y[1..], m, d)
  {
    var s := y + "-" + m + "-" + d;
    assert s[0] == y[0] && s[|s| - 1] == d[|d| - 1];
    TrimOfUnpadded(s);
    var t := "-" + m + "-" + d;
    assert s == y + t;
    assert (y + t)[1..] == y[1..] + t;
    assert y[1..] + t == y[1..] + "-" + m + "-" + d;
    DbDateBodyJoin(y[1..], m, d);
  }

  /**
   * The console's edit path shows no form: a date typed as M-D-Y (any year 0 or later,
   * any number of year digits) is reordered and converted by the database to that date,
   * provided it is on the calendar.
   */
  lemma DbDateOfConsoleText(d: Date)
    requires CalendarDate(d) && 0 <= d.year <= IntMax
    ensures ConvertDateFormat(FormatDateForInput(d)).Success?
    ensures DbDate(ConvertDateFormat(FormatDateForInput(d)).value) == Some(d)
  {
    var m, dd, y := Pad2(d.month), Pad2(d.day), IntToString(d.year);
    Pad2Month(d.month);
    Pad2Month(d.day);
    assert y == NatToString(d.year);
    DigitsExclude(y, '-');
    ReorderThree(m, dd, y);
    DbDateOfPlain(y, m, dd);
    ParseIntOfIntToString(d.year);
    ParseIntOfDigits(m);
    ParseIntOfDigits(dd);
  }

  /** Four digits, zero-padded on the left. */
  function Pad4(n: nat): string
  {
    if n < 10 then "000" + NatToString(n)
    else if n < 100 then "00" + NatToString(n)
    else if n < 1000 then "0" + NatToString(n)
    else NatToString(n)
  }

  /** The year as LocalDate.toString prints it: at least four digits, '+' above 9999. */
  function YearText(y: int): string
  {
    if -1000 < y < 0 then "-" + Pad4(-y)
    else if 0 <= y < 1000 then Pad4(y)
    else if y > 9999 then "+" + IntToString(y)
    else IntToString(y)
  }

  /** LocalDate.toString: YYYY-MM-DD. */
  function IsoString(d: Date): string
  {
    YearText(d.year) + "-" + Pad2(d.month) + "-" + Pad2(d.day)
  }

  /**
   * PropertyManager.convertDateFormat: the text must split on '-' into exactly three
   * parts a-b-c, which come back as c-a-b; any other count throws
   * IllegalArgumentException. The parts are not checked to be numbers.
   */
  function ConvertDateFormat(date: string): Result<string, Exception>
  {
    var parts := Split(date, '-');
    if |parts| != 3 then Failure(IllegalArgument)
    else Success(parts[2] + "-" + parts[0] + "-" + parts[1])
  }

  /**
   * TenantManager.formatDate: the same reordering without the count check; parts after
   * the third are ignored and fewer than three throw ArrayIndexOutOfBoundsException.
   */
  function FormatDate(mmddyyyy: string): Result<string, Exception>
  {
    var parts := Split(mmddyyyy, '-');
    if |parts| < 3 then Failure(IndexOutOfBounds)
    else Success(parts[2] + "-" + parts[0] + "-" + parts[1])
  }

  /** TenantManager.formatDateForInput: `%02d-%02d-%d` of month, day and year. */
  function FormatDateForInput(d: Date): string
  {
    Pad2(d.month) + "-" + Pad2(d.day) + "-" + IntToString(d.year)
  }

  // ---------------------------------------------------------------- month counts

  function Max0(x: int): int { if x < 0 then 0 else x }

  /** `(currentYear - leaseYear) * 12 + (currentMonth - leaseMonth)` in Java's 32-bit int arithmetic. */
  function MonthsBetween(y: int, m: int, today: Date): int
  {
    Wrap32(Wrap32(Wrap32(today.year - y) * 12) + Wrap32(today.month - m))
  }

  /**
   * PropertyManager.getUnpaidMonths: year and month are the first two '-' parts of a
   * YYYY-MM-DD text; the day is ignored. Any exception (too few parts, a part that is
   * not a number) is swallowed and gives 0.
   */
  function UnpaidMonthsLenient(leaseStart: string, today: Date): int
  {
    var parts := Split(leaseStart, '-');
    if |parts| < 2 then 0
    else match (ParseInt(parts[0]), ParseInt(parts[1]))
      case (Some(y), Some(m)) => Max0(MonthsBetween(y, m, today))
      case _ => 0
  }

  /**
   * TenantManager.getUnpaidMonths: the same count, but a missing part or a part that is
   * not a number propagates as an exception.
   */
  function UnpaidMonthsStrict(startDate: string, today: Date): Result<int, Exception>
  {
    var parts := Split(startDate, '-');
    if |parts| == 0 then Failure(IndexOutOfBounds)
    else match ParseInt(parts[0])
      case None => Failure(NumberFormat)
      case Some(y) =>
        if |parts| < 2 then Failure(IndexOutOfBounds)
        else match ParseInt(parts[1])
          case None => Failure(NumberFormat)
          case Some(m) => Success(Max0(MonthsBetween(y, m, today)))
  }

  /** Whole calendar months from the lease-start month to today's month, floored at 0. */
  function ElapsedMonths(start: Date, today: Date): int
  {
    Max0((today.year - start.year) * 12 + (today.month - start.month))
  }

  /** A today that LocalDate.now() can return in practice. */
  predicate Plausible(today: Date)
  {
    -100_000_000 <= today.year <= 100_000_000 && 1 <= today.month <= 12
  }

  // ---------------------------------------------------------------- lemmas

  lemma Pad4Digits(n: nat)
    requires n < 10000
    ensures |Pad4(n)| == 4 && AllDigits(Pad4(n)) && DigitsValue(Pad4(n)) == n
  {
    var t := NatToString(n);
    NatToStringValue(n);
    if n < 10 {
      NatToStringLength(n, 0);
      var t1 := "0" + t;
      LeadingZero(t);
      var t2 := "0" + t1;
      LeadingZero(t1);
      var t3 := "0" + t2;
      LeadingZero(t2);
      assert t3 == Pad4(n);
    } else if n < 100 {
      NatToStringLength(n, 1); NatToStringMinLength(n, 1);
      LeadingZero(t); LeadingZero("0" + t);
      assert "0" + ("0" + t) == Pad4(n);
    } else if n < 1000 {
      NatToStringLength(n, 2); NatToStringMinLength(n, 2);
      LeadingZero(t);
    } else {
      NatToStringLength(n, 3); NatToStringMinLength(n, 3);
    }
  }

  lemma Pad2Month(x: int)
    requires 1 <= x <= 31
    ensures 1 <= |Pad2(x)| <= 2 && AllDigits(Pad2(x)) && DigitsValue(Pad2(x)) == x && '-' !in Pad2(x)
  {
    Pad2Digits(x);
    DigitsExclude(Pad2(x), '-');
  }

  /** Every date java.sql.Date.valueOf accepts is read back from its LocalDate.toString text. */
  lemma ValueOfIsoString(d: Date)
    requires InSqlRange(d)
    ensures SqlDateValueOf(IsoString(d)) == Success(d)
  {
    var y, m, dd := YearText(d.year), Pad2(d.month), Pad2(d.day);
    Pad4Digits(d.year);
    assert y == Pad4(d.year);
    DigitsExclude(y, '-');
    Pad2Month(d.month);
    Pad2Month(d.day);
    SqlDateValueOfJoin(y, m, dd);
    ParseIntOfDigits(y);
    ParseIntOfDigits(m);
    ParseIntOfDigits(dd);
    DateOfPartsOf(y, m, dd, d);
  }

  /**
   * The edit form shows a stored date as MM-DD-YYYY and reads it back through formatDate
   * and java.sql.Date.valueOf; for four-digit years this gives the same date back.
   */
  lemma FormRoundTrip(d: Date)
    requires InSqlRange(d) && d.year >= 1000
    ensures FormatDate(FormatDateForInput(d)) == Success(IsoString(d))
    ensures ConvertDateFormat(FormatDateForInput(d)) == Success(IsoString(d))
    ensures SqlDateValueOf(IsoString(d)) == Success(d)
  {
    var m, dd, y := Pad2(d.month), Pad2(d.day), IntToString(d.year);
    Pad2Month(d.month);
    Pad2Month(d.day);
    assert y == NatToString(d.year);
    DigitsExclude(y, '-');
    Join3(m, dd, y, '-');
    assert FormatDateForInput(d) == Join([m, dd, y], '-');
    SplitOfJoin([m, dd, y], '-');
    assert YearText(d.year) == y;
    ValueOfIsoString(d);
  }

  /**
   * A year below 1000 is shown with fewer than four digits, formatDate passes that on, and
   * valueOf then refuses the text: such a date cannot be saved back through the edit form.
   */
  lemma FormLosesShortYear(d: Date)
    requires InSqlRange(d) && d.year < 1000
    ensures var shown := IntToString(d.year) + "-" + Pad2(d.month) + "-" + Pad2(d.day);
      && FormatDate(FormatDateForInput(d)) == Success(shown)
      && SqlDateValueOf(shown) == Failure(IllegalArgument)
  {
    var m, dd, y := Pad2(d.month), Pad2(d.day), IntToString(d.year);
    Pad2Month(d.month);
    Pad2Month(d.day);
    assert y == NatToString(d.year);
    DigitsExclude(y, '-');
    Join3(m, dd, y, '-');
    assert FormatDateForInput(d) == Join([m, dd, y], '-');
    SplitOfJoin([m, dd, y], '-');
    SqlDateValueOfJoin(y, m, dd);
    assert Pow10(3) == 1000;
    NatToStringLength(d.year, 2);
  }

  lemma YearDigits2024()
    ensures ParseInt("2024") == Some(2024)
  {
    Pad4Digits(2024);
    assert Pad4(2024) == "2024";
    ParseIntOfDigits("2024");
  }

  /** Integer.parseInt takes a sign, so valueOf reads 2024-+1-05 as 5 January 2024. */
  lemma SqlDateValueOfSigned()
    ensures SqlDateValueOf("2024-+1-05") == Success(Date(2024, 1, 5))
  {
    assert "2024-+1-05" == "2024" + "-" + "+1" + "-" + "05";
    SqlDateValueOfJoin("2024", "+1", "05");
    YearDigits2024();
    NatToStringValue(1);
    assert NatToString(1) == "1" == "+1"[1..];
    assert ParseInt("+1") == Some(1);
    Pad2Month(5);
    assert Pad2(5) == "05";
    ParseIntOfDigits("05");
    DateOfPartsOf("2024", "+1", "05", Date(2024, 1, 5));
  }

  /** A part of the right length that is not a number throws NumberFormatException. */
  lemma SqlDateValueOfNotANumber()
    ensures SqlDateValueOf("2024-01-0a") == Failure(NumberFormat)
  {
    assert "2024-01-0a" == "2024" + "-" + "01" + "-" + "0a";
    SqlDateValueOfJoin("2024", "01", "0a");
    assert !IsDigit("0a"[1]);
    assert ParseInt("0a") == None;
  }

  /** A month past 12 throws IllegalArgumentException. */
  lemma SqlDateValueOfIllegal()
    ensures SqlDateValueOf("2024-13-01") == Failure(IllegalArgument)
  {
    YearDigits2024();
    assert ParseInt("13") == Some(13) by {
      Pad2Month(13);
      assert Pad2(13) == "13";
      ParseIntOfDigits("13");
    }
    assert ParseInt("01") == Some(1) by {
      Pad2Month(1);
      assert Pad2(1) == "01";
      ParseIntOfDigits("01");
    }
    DateOfPartsOutOfRange("2024", "13", "01");
    assert "2024-13-01" == "2024" + "-" + "13" + "-" + "01";
    SqlDateValueOfJoin("2024", "13", "01");
  }

  /** So does a year of other than four characters. */
  lemma SqlDateValueOfShortYear()
    ensures SqlDateValueOf("24-01-05") == Failure(IllegalArgument)
  {
    assert "24-01-05" == "24" + "-" + "01" + "-" + "05";
    SqlDateValueOfJoin("24", "01", "05");
  }

  /** The database takes a year of any length: 24-3-5 is 5 March of the year 24. */
  lemma DbDateShortYear(y: string, m: string, d: string)
    requires y == "24" && m == "3" && d == "5"
    ensures DbDate(y + "-" + m + "-" + d) == Some(Date(24, 3, 5))
  {
    SmallNumber(24, y);
    SmallNumber(3, m);
    SmallNumber(5, d);
    DbDateOfPlain(y, m, d);
    CalendarOfPartsOf(y, m, d, Date(24, 3, 5));
  }

  /** valueOf lets 30 February through; the database refuses it. */
  lemma DbDateOffCalendar(y: string, m: string, d: string)
    requires y == "2024" && m == "02" && d == "30"
    ensures SqlDateValueOf(y + "-" + m + "-" + d) == Success(Date(2024, 2, 30))
    ensures DbDate(y + "-" + m + "-" + d) == None
  {
    YearDigits2024();
    SmallNumber(2, "2");
    LeadingZero("2");
    assert "0" + "2" == m;
    SmallNumber(30, d);
    SqlDateValueOfJoin(y, m, d);
    DateOfPartsOf(y, m, d, Date(2024, 2, 30));
    assert !CalendarDate(Date(2024, 2, 30));
    ValueOfAgreesWithDb(y + "-" + m + "-" + d);
  }

  /** Integer.parseInt of the decimal text of a small number. */
  lemma SmallNumber(n: nat, t: string)
    requires n < 100 && t == NatToString(n)
    ensures ParseInt(t) == Some(n) && |t| > 0 && IsDigit(t[0]) && IsDigit(t[|t| - 1]) && '-' !in t
  {
    NatToStringValue(n);
    ParseIntOfDigits(t);
    DigitsExclude(t, '-');
  }

  /** On exactly three parts both reorderings agree; convertDateFormat refuses any other count. */
  lemma ReorderingsAgree(s: string)
    ensures |Split(s, '-')| == 3 ==> ConvertDateFormat(s) == FormatDate(s)
    ensures ConvertDateFormat(s).Success? <==> |Split(s, '-')| == 3
    ensures FormatDate(s).Success? <==> |Split(s, '-')| >= 3
  {
  }

  /** The reordered text has the three input parts as its '-' pieces, year first. */
  lemma ConvertDateFormatReorders(s: string)
    requires ConvertDateFormat(s).Success?
    ensures Pieces(ConvertDateFormat(s).value, '-') == [Split(s, '-')[2], Split(s, '-')[0], Split(s, '-')[1]]
  {
    var p := Split(s, '-');
    PiecesHaveNoSeparator(s, '-');
    assert '-' in s;
    assert forall k :: 0 <= k < 3 ==> p[k] == Pieces(s, '-')[k];
    Join3(p[2], p[0], p[1], '-');
    PiecesOfJoin([p[2], p[0], p[1]], '-');
  }

  /** Three '-'-free parts, the last nonempty, are reordered as the source intends. */
  lemma ReorderThree(a: string, b: string, c: string)
    requires '-' !in a && '-' !in b && '-' !in c && c != ""
    ensures ConvertDateFormat(a + "-" + b + "-" + c) == Success(c + "-" + a + "-" + b)
    ensures FormatDate(a + "-" + b + "-" + c) == Success(c + "-" + a + "-" + b)
  {
    var parts := [a, b, c];
    Join3(a, b, c, '-');
    SplitOfJoin(parts, '-');
  }

  /** With a fourth part the two reorderings part ways: the form drops it, the console refuses. */
  lemma ReorderingsDisagree(a: string, b: string, c: string, e: string)
    requires '-' !in a && '-' !in b && '-' !in c && '-' !in e && e != ""
    ensures ConvertDateFormat(a + "-" + b + "-" + c + "-" + e) == Failure(IllegalArgument)
    ensures FormatDate(a + "-" + b + "-" + c + "-" + e) == Success(c + "-" + a + "-" + b)
  {
    var parts := [a, b, c, e];
    assert Join(parts, '-') == a + "-" + b + "-" + c + "-" + e by {
      assert parts[1..] == [b, c, e];
      Join3(b, c, e, '-');
    }
    SplitOfJoin(parts, '-');
  }

  /** The worked example: 03-15-2024 becomes 2024-03-15 through either reordering. */
  lemma ConvertExample(s: string)
    requires s == "03-15-2024"
    ensures ConvertDateFormat(s) == Success("2024-03-15")
    ensures FormatDate(s) == Success("2024-03-15")
  {
    var parts := ["03", "15", "2024"];
    assert forall k :: 0 <= k < 3 ==> '-' !in parts[k];
    Join3("03", "15", "2024", '-');
    assert s == Join(parts, '-');
    SplitOfJoin(parts, '-');
    var r := "2024" + "-" + "03" + "-" + "15";
    assert r == "2024-03-15";
  }

  /** The two copies of the month count agree wherever the strict one returns normally. */
  lemma UnpaidMonthsAgree(s: string, today: Date)
    ensures UnpaidMonthsStrict(s, today).Success? ==> UnpaidMonthsLenient(s, today) == UnpaidMonthsStrict(s, today).value
    ensures UnpaidMonthsStrict(s, today).Failure? ==> UnpaidMonthsLenient(s, today) == 0
    ensures UnpaidMonthsLenient(s, today) >= 0
  {
  }

  /** Text java.sql.Date.valueOf accepts splits into year, month and day parts that parse as ints. */
  lemma SqlDateParts(s: string)
    requires SqlDateValueOf(s).Success?
    ensures var p := Split(s, '-');
      && |p| == 3
      && ParseInt(p[0]) == Some(SqlDateValueOf(s).value.year)
      && ParseInt(p[1]) == Some(SqlDateValueOf(s).value.month)
  {
    var y, m, d := SqlDateShape(s);
    Join3(y, m, d, '-');
    SplitOfJoin([y, m, d], '-');
  }

  /** Within plausible years the 32-bit arithmetic does not wrap. */
  lemma MonthsBetweenExact(d: Date, today: Date)
    requires InSqlRange(d) && Plausible(today)
    ensures Max0(MonthsBetween(d.year, d.month, today)) == ElapsedMonths(d, today)
  {
  }

  /**
   * On text java.sql.Date.valueOf accepts, the console's copy counts the whole calendar
   * months from the lease-start month to today's, never negative, without 32-bit overflow.
   */
  lemma UnpaidMonthsOfDate(s: string, today: Date)
    requires SqlDateValueOf(s).Success? && Plausible(today)
    ensures UnpaidMonthsLenient(s, today) == ElapsedMonths(SqlDateValueOf(s).value, today)
  {
    SqlDateParts(s);
    MonthsBetweenExact(SqlDateValueOf(s).value, today);
  }

  /** ... and so does the form's copy, which then raises nothing. */
  lemma UnpaidMonthsStrictOfDate(s: string, today: Date)
    requires SqlDateValueOf(s).Success? && Plausible(today)
    ensures UnpaidMonthsStrict(s, today) == Success(ElapsedMonths(SqlDateValueOf(s).value, today))
  {
    SqlDateParts(s);
    MonthsBetweenExact(SqlDateValueOf(s).value, today);
  }

  /** On text valueOf accepts the form's copy raises nothing and agrees with the console's. */
  lemma UnpaidMonthsStrictSucceeds(s: string, today: Date)
    requires SqlDateValueOf(s).Success?
    ensures UnpaidMonthsStrict(s, today) == Success(UnpaidMonthsLenient(s, today))
  {
    SqlDateParts(s);
  }

  /** The ISO text of a date valueOf can hold has only digits and '-' in it, so no comma. */
  lemma IsoStringHasNoComma(d: Date)
    requires InSqlRange(d)
    ensures ',' !in IsoString(d) && |IsoString(d)| > 0
  {
    var y := YearText(d.year);
    if d.year < 1000 {
      Pad4Digits(d.year);
    } else {
      assert y == NatToString(d.year);
    }
    DigitsExclude(y, ',');
    Pad2Month(d.month);
    Pad2Month(d.day);
    DigitsExclude(Pad2(d.month), ',');
    DigitsExclude(Pad2(d.day), ',');
  }

  /** A month index that orders dates by year, then month. */
  function MonthOrdinal(d: Date): int { d.year * 12 + d.month }

  /** The count never decreases as today moves forward. */
  lemma UnpaidMonthsMonotone(s: string, t1: Date, t2: Date)
    requires SqlDateValueOf(s).Success? && Plausible(t1) && Plausible(t2)
    requires MonthOrdinal(t1) <= MonthOrdinal(t2)
    ensures UnpaidMonthsLenient(s, t1) <= UnpaidMonthsLenient(s, t2)
  {
    UnpaidMonthsOfDate(s, t1);
    UnpaidMonthsOfDate(s, t2);
  }

  /** Nothing is owed yet during the lease-start month or before it; one month more per month after. */
  lemma UnpaidMonthsStartMonth(s: string, today: Date)
    requires SqlDateValueOf(s).Success? && Plausible(today)
    ensures MonthOrdinal(today) <= MonthOrdinal(SqlDateValueOf(s).value) ==> UnpaidMonthsLenient(s, today) == 0
    ensures MonthOrdinal(today) >= MonthOrdinal(SqlDateValueOf(s).value) ==>
      UnpaidMonthsLenient(s, today) == MonthOrdinal(today) - MonthOrdinal(SqlDateValueOf(s).value)
  {
    UnpaidMonthsOfDate(s, today);
  }

  /** A lease starting 2023-01-01 owes 18 months on 2024-07-01. */
  lemma UnpaidMonthsExample(y: string, m: string, d: string)
    requires y == "2023" && m == "01" && d == "01"
    ensures UnpaidMonthsLenient(y + "-" + m + "-" + d, Date(2024, 7, 1)) == 18
  {
    assert ParseInt(y) == Some(2023) && '-' !in y by {
      NatToStringValue(2023);
      assert NatToString(2023) == y;
      ParseIntOfDigits(y);
    }
    assert ParseInt(m) == Some(1) && m == d by {
      Pad2Month(1);
      assert Pad2(1) == m;
      ParseIntOfDigits(m);
    }
    Pad2Month(1);
    assert Pad2(1) == m;
    Join3(y, m, d, '-');
    SplitOfJoin([y, m, d], '-');
    UnpaidMonthsOfParts(y + "-" + m + "-" + d, 2023, 1, Date(2024, 7, 1));
    MonthsBetweenExact(Date(2023, 1, 1), Date(2024, 7, 1));
  }

  lemma UnpaidMonthsOfParts(s: string, y: int, m: int, today: Date)
    requires |Split(s, '-')| >= 2 && ParseInt(Split(s, '-')[0]) == Some(y) && ParseInt(Split(s, '-')[1]) == Some(m)
    ensures UnpaidMonthsLenient(s, today) == Max0(MonthsBetween(y, m, today))
  {
  }
}
