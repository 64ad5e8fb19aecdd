/** The Booking entity (models/Booking.cpp, models/Booking.h): date validation,
    the date order, the approximate day count, validation and the status tests.
    A Booking is a value; its setters are datatype updates. */
module Bookings {
  import opened Text
  import opened Dates

  /** `totalCost` is a C++ double, modelled as a real. */
  datatype Booking = Booking(
    bookingId: int,
    customerId: int,
    carId: int,
    startDate: string,
    endDate: string,
    totalCost: real,
    status: string,
    notes: string)

  /** Booking(): ids 0, no dates, cost 0 and status "Active"; also the "not found" value. */
  function DefaultBooking(): (b: Booking)
    ensures b.bookingId == 0 && b.customerId == 0 && b.carId == 0
    ensures IsActive(b) && b.notes == ""
    ensures !IsValid(b)
  {
    Booking(0, 0, 0, "", "", 0.0, "Active", "")
  }

  /** The field constructor: no id yet and no notes. */
  function NewBooking(customerId: int, carId: int, startDate: string, endDate: string,
                      totalCost: real, status: string): (b: Booking)
    ensures b.bookingId == 0 && b.customerId == customerId && b.carId == carId
    ensures b.startDate == startDate && b.endDate == endDate
    ensures b.totalCost == totalCost && b.status == status && b.notes == ""
  {
    Booking(0, customerId, carId, startDate, endDate, totalCost, status, "")
  }

  // ---------------------------------------------------------------------------
  // Dates

  /** isValidDate: the YYYY-MM-DD shape, a year in 1900..2100, a month in 1..12, a
      day in 1..31, at most 30 days in April, June, September and November and at
      most 29 in February, whatever the year. */
  predicate IsValidDate(date: string)
  {
    if !DateShape(date) then false
    else
      var d := ScanDate(date);
      if d.year < 1900 || d.year > 2100 then false
      else if d.month < 1 || d.month > 12 then false
      else if d.day < 1 || d.day > 31 then false
      else if (d.month == 4 || d.month == 6 || d.month == 9 || d.month == 11) && d.day > 30 then false
      else if d.month == 2 && d.day > 29 then false
      else true
  }

  /** The days a month may have under isValidDate. */
  function MonthLength(month: int): int
  {
    if month == 4 || month == 6 || month == 9 || month == 11 then 30
    else if month == 2 then 29
    else 31
  }

  /** isValidDate, read as a calendar without leap years: in range and no day past
      the month's end. */
  lemma IsValidDateMeaning(date: string)
    ensures IsValidDate(date) <==>
      DateShape(date) &&
      var d := ScanDate(date);
      1900 <= d.year <= 2100 && 1 <= d.month <= 12 && 1 <= d.day <= MonthLength(d.month)
  {
  }

  /** February 29 is accepted in every year, February 30 and April 31 never. */
  lemma IsValidDateExamples()
    ensures IsValidDate("2023-02-29")
    ensures !IsValidDate("2024-02-30") && !IsValidDate("2024-04-31")
    ensures IsValidDate("2024-12-31") && !IsValidDate("2024-13-01") && !IsValidDate("1899-12-31")
    ensures !IsValidDate("2024-1-01")
  {
    ScanDateDigits("2023-02-29");
    ScanDateDigits("2024-02-30");
    ScanDateDigits("2024-04-31");
    ScanDateDigits("2024-12-31");
    ScanDateDigits("2024-13-01");
    ScanDateDigits("1899-12-31");
  }

  /** isDateAfter(date1, date2): date1 is strictly later, comparing year, then month,
      then day. Only well-formed dates are modelled; for others the numbers sscanf
      stores (or, when the scan stops early, leaves unset) are not followed. */
  predicate IsDateAfter(date1: string, date2: string)
    requires DateShape(date1) && DateShape(date2)
  {
    var a := ScanDate(date1);
    var b := ScanDate(date2);
    if a.year > b.year then true
    else if a.year < b.year then false
    else if a.month > b.month then true
    else if a.month < b.month then false
    else a.day > b.day
  }

  /** The comparison chain is the lexicographic order on the scanned dates. */
  lemma IsDateAfterIsLater(date1: string, date2: string)
    requires DateShape(date1) && DateShape(date2)
    ensures IsDateAfter(date1, date2) <==> Later(ScanDate(date1), ScanDate(date2))
  {
  }

  /** Irreflexive, and for two well-formed dates exactly one of "after", "before"
      and "equal" holds. */
  lemma IsDateAfterTrichotomy(a: string, b: string)
    requires DateShape(a) && DateShape(b)
    ensures !IsDateAfter(a, a)
    ensures IsDateAfter(a, b) ==> !IsDateAfter(b, a) && a != b
    ensures IsDateAfter(a, b) || IsDateAfter(b, a) || a == b
  {
    if !IsDateAfter(a, b) && !IsDateAfter(b, a) {
      ScanDateInjective(a, b);
    }
  }

  /** The day number the approximation gives a date: 365 days a year, 30 a month. */
  function DayNumber(d: Ymd): int
  {
    d.year * 365 + d.month * 30 + d.day
  }

  /** daysBetween(startDate, endDate): the difference of the two day numbers. */
  function DaysBetween(startDate: string, endDate: string): (n: int)
    requires DateShape(startDate) && DateShape(endDate)
    ensures n == DayNumber(ScanDate(endDate)) - DayNumber(ScanDate(startDate))
  {
    var a := ScanDate(startDate);
    var b := ScanDate(endDate);
    (b.year * 365 + b.month * 30 + b.day) - (a.year * 365 + a.month * 30 + a.day)
  }

  lemma DaysBetweenAntisymmetric(a: string, b: string)
    requires DateShape(a) && DateShape(b)
    ensures DaysBetween(a, a) == 0
    ensures DaysBetween(a, b) == -DaysBetween(b, a)
  {
  }

  /** The count is not calendar-accurate: the last day of January and the first of
      February get the same number although one is after the other. */
  lemma DaysBetweenExamples()
    ensures DaysBetween("2024-01-10", "2024-01-15") == 5
    ensures DaysBetween("2024-01-31", "2024-02-01") == 0
    ensures IsDateAfter("2024-02-01", "2024-01-31")
  {
    ScanDateDigits("2024-01-10");
    ScanDateDigits("2024-01-15");
    ScanDateDigits("2024-01-31");
    ScanDateDigits("2024-02-01");
  }

  /** For valid dates the count agrees with the order in sign: never negative when
      the end is after the start, and positive only when it is. */
  lemma DaysBetweenFollowsOrder(s: string, e: string)
    requires IsValidDate(s) && IsValidDate(e)
    ensures IsDateAfter(e, s) ==> DaysBetween(s, e) >= 0
    ensures DaysBetween(s, e) > 0 ==> IsDateAfter(e, s)
  {
  }

  // ---------------------------------------------------------------------------
  // Booking

  /** getDuration: the day count from start to end. A valid booking never lasts a
      negative number of days, and between valid dates a positive duration means
      the end is after the start. */
  function Duration(b: Booking): (n: int)
    requires DateShape(b.startDate) && DateShape(b.endDate)
    ensures IsValid(b) ==> n >= 0
    ensures IsValidDate(b.startDate) && IsValidDate(b.endDate) && n > 0 ==> IsDateAfter(b.endDate, b.startDate)
  {
    var n := DaysBetween(b.startDate, b.endDate);
    if IsValidDate(b.startDate) && IsValidDate(b.endDate) then
      DaysBetweenFollowsOrder(b.startDate, b.endDate);
      n
    else n
  }

  /** A valid booking can last 0 days: the approximate count gives no day from the
      last of January to the first of February. */
  lemma ValidBookingOfNoDays()
    ensures var b := Booking(1, 2, 3, "2024-01-31", "2024-02-01", 100.0, "Active", "");
            IsValid(b) && Duration(b) == 0
  {
    var b := Booking(1, 2, 3, "2024-01-31", "2024-02-01", 100.0, "Active", "");
    assert DateShape(b.startDate) && DateShape(b.endDate) by {
      assert AllDigits("2024-01-31"[..4]) && AllDigits("2024-01-31"[5..7]) && AllDigits("2024-01-31"[8..]);
      assert AllDigits("2024-02-01"[..4]) && AllDigits("2024-02-01"[5..7]) && AllDigits("2024-02-01"[8..]);
    }
    assert ScanDate(b.startDate) == Ymd(2024, 1, 31) by { ScanDateDigits(b.startDate); }
    assert ScanDate(b.endDate) == Ymd(2024, 2, 1) by { ScanDateDigits(b.endDate); }
    assert IsValidDate(b.startDate) && IsValidDate(b.endDate);
    assert IsDateAfter(b.endDate, b.startDate);
    assert DaysBetween(b.startDate, b.endDate) == 0;
  }

  /** isValid: both ids positive, both dates valid, the end strictly after the start
      (the && chain only compares valid dates) and a cost that is not negative. */
  predicate IsValid(b: Booking)
  {
    && b.customerId > 0 && b.carId > 0 && IsValidDate(b.startDate) && IsValidDate(b.endDate)
    && IsDateAfter(b.endDate, b.startDate) && b.totalCost >= 0.0
  }

  /** A booking that ends on the day it starts is not valid. */
  lemma SameDayBookingInvalid(b: Booking)
    requires b.startDate == b.endDate
    ensures !IsValid(b)
  {
    if IsValidDate(b.startDate) {
      IsDateAfterTrichotomy(b.startDate, b.startDate);
    }
  }

  /** What the date-order check of getValidationErrors yields. It runs even when a
      date is malformed. The model does not follow sscanf on such a date (it may
      still read three numbers, as from "2024-1-5", or stop early, as on ""), so
      that outcome is `unspecifiedOrder`. */
  function EndAfterStart(b: Booking, unspecifiedOrder: bool): bool
  {
    if DateShape(b.endDate) && DateShape(b.startDate) then IsDateAfter(b.endDate, b.startDate)
    else unspecifiedOrder
  }

  /** The rules of getValidationErrors in the order it tries them: customer, car,
      start date, end date, date order, cost. */
  function BookingChecks(b: Booking, unspecifiedOrder: bool): seq<Check>
  {
    [Check(b.customerId <= 0, "Valid customer ID is required. "),
     Check(b.carId <= 0, "Valid car ID is required. "),
     Check(!IsValidDate(b.startDate), "Valid start date is required. "),
     Check(!IsValidDate(b.endDate), "Valid end date is required. "),
     Check(!EndAfterStart(b, unspecifiedOrder), "End date must be after start date. "),
     Check(b.totalCost < 0.0, "Total cost cannot be negative. ")]
  }

  /** No rule fails exactly when the booking is valid, whatever the order check
      yields on malformed dates: a malformed date fails a rule of its own. */
  lemma BookingChecksPassWhenValid(b: Booking, unspecifiedOrder: bool)
    ensures (forall k | 0 <= k < |BookingChecks(b, unspecifiedOrder)| :: !BookingChecks(b, unspecifiedOrder)[k].fails)
            <==> IsValid(b)
  {
    var cs := BookingChecks(b, unspecifiedOrder);
    if !IsValid(b) {
      assert cs[0].fails || cs[1].fails || cs[2].fails || cs[3].fails || cs[4].fails || cs[5].fails;
    }
  }

  /** getValidationErrors: the message of every failed rule, in the order of the
      rule table. The messages are empty exactly for a valid booking, every failed
      rule is reported -- a malformed date always with its own message -- and a
      missing customer is reported first. */
  function ValidationErrors(b: Booking, unspecifiedOrder: bool): (r: string)
    ensures r == "" <==> IsValid(b)
    ensures forall k | 0 <= k < |BookingChecks(b, unspecifiedOrder)| && BookingChecks(b, unspecifiedOrder)[k].fails ::
              Contains(r, BookingChecks(b, unspecifiedOrder)[k].text)
    ensures !IsValidDate(b.startDate) ==> Contains(r, "Valid start date is required. ")
    ensures !IsValidDate(b.endDate) ==> Contains(r, "Valid end date is required. ")
    ensures b.customerId <= 0 ==> "Valid customer ID is required. " <= r
  {
    var cs := BookingChecks(b, unspecifiedOrder);
    ReportedEmpty(cs);
    BookingChecksPassWhenValid(b, unspecifiedOrder);
    ReportedContainsAll(cs);
    assert cs[2].text == "Valid start date is required. " && cs[3].text == "Valid end date is required. ";
    ReportedFirst(cs);
    Reported(cs)
  }

  predicate IsActive(b: Booking) { b.status == "Active" }
  predicate IsCompleted(b: Booking) { b.status == "Completed" }
  predicate IsCancelled(b: Booking) { b.status == "Cancelled" }

  /** The status tests compare exact text, so at most one holds and a differently
      capitalised status matches none of them. */
  lemma AtMostOneStatus(b: Booking)
    ensures !(IsActive(b) && IsCompleted(b))
    ensures !(IsActive(b) && IsCancelled(b))
    ensures !(IsCompleted(b) && IsCancelled(b))
    ensures b.status == "active" ==> !IsActive(b) && !IsCompleted(b) && !IsCancelled(b)
  {
  }
}
