/** The date utilities of the form: the 45-day inspection schedule computed
    from the January date, the two date formatters, and the successor slot
    shown as "next inspection". */
module DateUtils {
  import opened Wrappers
  import opened Inspection
  import opened CivilDate

  /** Days between consecutive inspections. */
  const INTERVAL: nat := 45

  /** Every slot empty. */
  const BLANK_SCHEDULE: map<Month, string> := map m | m in MONTHS :: ""

  /** The i-th date of the sequence started at the anchor: each date is
      INTERVAL days after the previous one, i intervals after the anchor. */
  function ScheduleDate(anchor: Date, i: nat): (r: Date)
    requires Valid(anchor)
    ensures Valid(r) && DayNumber(r) == DayNumber(anchor) + 45 * i
  {
    if i == 0 then anchor else AddDays(ScheduleDate(anchor, i - 1), INTERVAL)
  }

  /** What calculateInspectionDates returns, slot by slot: nothing for an
      empty or unparseable anchor; otherwise the anchor string itself in
      JAN, and in the i-th slot the date i intervals later, formatted
      `yyyy-MM-dd`. Slots are filled in order; no slot is chosen by the
      calendar month its date falls in. Every slot is present, and JAN holds
      the entered text or nothing. */
  function InspectionSchedule(januaryDateStr: string): (r: map<Month, string>)
    ensures Complete(r)
    ensures r[JAN] == januaryDateStr || r[JAN] == ""
  {
    MonthsIndexed();
    if januaryDateStr == "" then BLANK_SCHEDULE
    else match ParseIso(januaryDateStr)
      case None => BLANK_SCHEDULE
      case Some(anchor) => map m | m in MONTHS :: Slot(januaryDateStr, anchor, MonthIndex(m))
  }

  /** The text of the i-th slot for a valid anchor. */
  function Slot(januaryDateStr: string, anchor: Date, i: nat): string
    requires Valid(anchor)
  {
    if i == 0 then januaryDateStr else FormatIso(ScheduleDate(anchor, i))
  }

  /** calculateInspectionDates: blank every slot, then (for a valid anchor)
      keep the anchor in JAN and step 45 days forward per later slot. */
  method CalculateInspectionDates(januaryDateStr: string) returns (result: map<Month, string>)
    ensures result == InspectionSchedule(januaryDateStr)
  {
    result := map[];
    for i := 0 to |MONTHS|
      invariant forall k :: k in result <==> k in MONTHS[..i]
      invariant forall k :: k in result ==> result[k] == ""
    {
      result := result[MONTHS[i] := ""];
    }
    BlankedAll(result);
    if januaryDateStr == "" {
      ScheduleOfBlank(januaryDateStr);
      return;
    }
    var parsed := ParseIso(januaryDateStr);
    if parsed.None? {
      ScheduleOfBlank(januaryDateStr);
      return;
    }
    var januaryDate := parsed.value;
    ghost var target := InspectionSchedule(januaryDateStr);
    ScheduleOfValid(januaryDateStr, 0);
    SpliceStart(target, BLANK_SCHEDULE);
    SpliceStep(result, target, BLANK_SCHEDULE, 0);
    result := result[JAN := januaryDateStr];
    var currentDate := januaryDate;
    for i := 1 to |MONTHS|
      invariant Spliced(result, target, BLANK_SCHEDULE, i)
      invariant currentDate == ScheduleDate(januaryDate, i - 1)
    {
      currentDate := AddDays(currentDate, INTERVAL);
      assert currentDate == ScheduleDate(januaryDate, i);
      ScheduleOfValid(januaryDateStr, i);
      SpliceStep(result, target, BLANK_SCHEDULE, i);
      result := result[MONTHS[i] := FormatIso(currentDate)];
    }
    SpliceDone(result, target, BLANK_SCHEDULE);
  }

  lemma BlankedAll(result: map<Month, string>)
    requires forall k :: k in result <==> k in MONTHS[..|MONTHS|]
    requires forall k :: k in result ==> result[k] == ""
    ensures result == BLANK_SCHEDULE && Complete(BLANK_SCHEDULE)
  {
    MonthsIndexed();
    assert MONTHS[..|MONTHS|] == MONTHS;
  }

  lemma ScheduleOfBlank(januaryDateStr: string)
    requires januaryDateStr == "" || ParseIso(januaryDateStr).None?
    ensures InspectionSchedule(januaryDateStr) == BLANK_SCHEDULE
  {
  }

  /** An empty or unparseable anchor leaves every slot empty. */
  lemma ScheduleOfInvalid(januaryDateStr: string)
    requires januaryDateStr == "" || ParseIso(januaryDateStr).None?
    ensures Complete(InspectionSchedule(januaryDateStr))
    ensures forall m :: InspectionSchedule(januaryDateStr)[m] == ""
  {
    MonthsIndexed();
  }

  /** A valid anchor fills all twelve slots: JAN holds the anchor string
      verbatim, and slot i holds the i-th date of the 45-day sequence. */
  lemma ScheduleOfValid(januaryDateStr: string, i: nat)
    requires ParseIso(januaryDateStr).Some?
    requires i < 12
    ensures Complete(InspectionSchedule(januaryDateStr))
    ensures InspectionSchedule(januaryDateStr)[JAN] == januaryDateStr
    ensures InspectionSchedule(januaryDateStr)[MONTHS[i]] != ""
    ensures i > 0 ==> InspectionSchedule(januaryDateStr)[MONTHS[i]]
                      == FormatIso(ScheduleDate(ParseIso(januaryDateStr).value, i))
  {
    MonthsIndexed();
    assert MonthIndex(MONTHS[i]) == i;
  }

  /** With every date of the schedule in the years 0001 to 9999, each slot
      reads back as a date exactly INTERVAL days after the previous slot's. */
  lemma ScheduleSpacing(januaryDateStr: string, i: nat)
    requires ParseIso(januaryDateStr).Some?
    requires ParseIso(januaryDateStr).value.year >= 1
    requires ScheduleDate(ParseIso(januaryDateStr).value, 11).year < 10000
    requires 1 <= i < 12
    ensures Complete(InspectionSchedule(januaryDateStr))
    ensures ParseIso(InspectionSchedule(januaryDateStr)[MONTHS[i]]).Some?
    ensures ParseIso(InspectionSchedule(januaryDateStr)[MONTHS[i - 1]]).Some?
    ensures DayNumber(ParseIso(InspectionSchedule(januaryDateStr)[MONTHS[i]]).value)
            == DayNumber(ParseIso(InspectionSchedule(januaryDateStr)[MONTHS[i - 1]]).value) + INTERVAL
  {
    ScheduleOfValid(januaryDateStr, 0);
    SlotParses(januaryDateStr, i);
    SlotParses(januaryDateStr, i - 1);
    var anchor := ParseIso(januaryDateStr).value;
    assert DayNumber(ScheduleDate(anchor, i)) == DayNumber(ScheduleDate(anchor, i - 1)) + 45;
  }

  /** Under the same bounds, DEC reads back as the date 495 days after JAN. */
  lemma ScheduleYearSpan(januaryDateStr: string)
    requires ParseIso(januaryDateStr).Some?
    requires ParseIso(januaryDateStr).value.year >= 1
    requires ScheduleDate(ParseIso(januaryDateStr).value, 11).year < 10000
    ensures Complete(InspectionSchedule(januaryDateStr))
    ensures ParseIso(InspectionSchedule(januaryDateStr)[DEC]).Some?
    ensures DayNumber(ParseIso(InspectionSchedule(januaryDateStr)[DEC]).value)
            == DayNumber(ParseIso(januaryDateStr).value) + 495
  {
    ScheduleOfValid(januaryDateStr, 0);
    SlotParses(januaryDateStr, 11);
  }

  /** Under the same year bounds, the i-th slot parses to the i-th date. */
  lemma SlotParses(januaryDateStr: string, i: nat)
    requires ParseIso(januaryDateStr).Some?
    requires ParseIso(januaryDateStr).value.year >= 1
    requires ScheduleDate(ParseIso(januaryDateStr).value, 11).year < 10000
    requires i < 12
    ensures ParseIso(InspectionSchedule(januaryDateStr)[MONTHS[i]])
            == Some(ScheduleDate(ParseIso(januaryDateStr).value, i))
  {
    var anchor := ParseIso(januaryDateStr).value;
    ScheduleOfValid(januaryDateStr, i);
    var d := ScheduleDate(anchor, i);
    if i == 0 {
      assert d == anchor;
    } else {
      YearMonotone(anchor, d);
      YearMonotone(d, ScheduleDate(anchor, 11));
      ParseFormatIso(d);
    }
  }

  /** formatDateForDisplay: `MM/dd/yy`, or empty for empty or invalid input. */
  function FormatDateForDisplay(dateStr: string): (r: string)
    ensures dateStr == "" || ParseIso(dateStr).None? ==> r == ""
    ensures ParseIso(dateStr).Some? ==>
              var d := ParseIso(dateStr).value;
              && |r| == 8 && r[2] == '/' && r[5] == '/'
              && AllDigits(r[..2]) && Value(r[..2]) == d.month
              && AllDigits(r[3..5]) && Value(r[3..5]) == d.day
              && AllDigits(r[6..]) && Value(r[6..]) == YearOfEra(d.year) % 100
  {
    if dateStr == "" then ""
    else match ParseIso(dateStr)
      case None => ""
      case Some(d) => FormatShort(d)
  }

  /** formatDateForPDF: `MM/dd/yyyy`, or empty for empty or invalid input. */
  function FormatDateForPDF(dateStr: string): (r: string)
    ensures dateStr == "" || ParseIso(dateStr).None? ==> r == ""
    ensures ParseIso(dateStr).Some? ==>
              var d := ParseIso(dateStr).value;
              && |r| == 10 && r[2] == '/' && r[5] == '/'
              && AllDigits(r[..2]) && Value(r[..2]) == d.month
              && AllDigits(r[3..5]) && Value(r[3..5]) == d.day
              && AllDigits(r[6..]) && Value(r[6..]) == YearOfEra(d.year)
  {
    if dateStr == "" then ""
    else match ParseIso(dateStr)
      case None => ""
      case Some(d) => FormatLong(d)
  }

  /** The formatted forms are not ISO dates: formatting a formatted date
      gives the empty string, so neither formatter is idempotent. */
  lemma FormattedIsNotIso(dateStr: string)
    ensures FormatDateForPDF(FormatDateForPDF(dateStr)) == ""
    ensures FormatDateForDisplay(FormatDateForDisplay(dateStr)) == ""
  {
    var long := FormatDateForPDF(dateStr);
    var short := FormatDateForDisplay(dateStr);
    if ParseIso(dateStr).Some? {
      assert long[4] != '-' by { assert long[3..5][1] == long[4]; }
      assert |short| != 10;
    }
  }

  datatype NextInspectionInfo = NextInspectionInfo(nextMonth: Month, nextDate: string)

  /** getNextInspectionInfo without `daysUntil`: the slot after the current
      one and its date, or nothing for DEC or when that date is empty. */
  function GetNextInspectionInfo(currentMonth: Month, dates: map<Month, string>): (r: Option<NextInspectionInfo>)
    requires Complete(dates)
    ensures r.None? <==> currentMonth == DEC || dates[MONTHS[MonthIndex(currentMonth) + 1]] == ""
    ensures r.Some? ==> MonthIndex(r.value.nextMonth) == MonthIndex(currentMonth) + 1
                        && r.value.nextDate == dates[r.value.nextMonth]
  {
    var currentIndex := MonthIndex(currentMonth);
    if currentIndex == |MONTHS| - 1 then None
    else
      var nextMonth := MONTHS[currentIndex + 1];
      var nextDate := dates[nextMonth];
      if nextDate == "" then None
      else Some(NextInspectionInfo(nextMonth, nextDate))
  }

  /** On a schedule computed from a valid anchor, every slot but DEC has a
      next inspection, 45 days after its own date. */
  lemma NextInspectionOnSchedule(januaryDateStr: string, current: Month)
    requires ParseIso(januaryDateStr).Some?
    requires ParseIso(januaryDateStr).value.year >= 1
    requires ScheduleDate(ParseIso(januaryDateStr).value, 11).year < 10000
    requires current != DEC
    ensures Complete(InspectionSchedule(januaryDateStr))
    ensures GetNextInspectionInfo(current, InspectionSchedule(januaryDateStr)).Some?
    ensures var info := GetNextInspectionInfo(current, InspectionSchedule(januaryDateStr)).value;
            var here := InspectionSchedule(januaryDateStr)[current];
            && ParseIso(info.nextDate).Some? && ParseIso(here).Some?
            && DayNumber(ParseIso(info.nextDate).value) == DayNumber(ParseIso(here).value) + INTERVAL
  {
    var i := MonthIndex(current) + 1;
    ScheduleSpacing(januaryDateStr, i);
    NextIsFollowingSlot(current, InspectionSchedule(januaryDateStr));
  }

  /** For any record, a non-empty following slot is the next inspection. */
  lemma NextIsFollowingSlot(current: Month, dates: map<Month, string>)
    requires Complete(dates) && current != DEC
    requires dates[MONTHS[MonthIndex(current) + 1]] != ""
    ensures MONTHS[MonthIndex(current)] == current
    ensures GetNextInspectionInfo(current, dates)
            == Some(NextInspectionInfo(MONTHS[MonthIndex(current) + 1], dates[MONTHS[MonthIndex(current) + 1]]))
  {
  }

  /** The schedule of the example anchor 2025-01-15 has 2025-03-01 in FEB. */
  lemma ExampleSchedule(anchor: Date)
    requires anchor == Date(2025, 1, 15)
    ensures ScheduleDate(anchor, 1) == Date(2025, 3, 1)
  {
    ExampleStep(anchor, ScheduleDate(anchor, 1));
  }

  lemma ExampleStep(anchor: Date, d: Date)
    requires anchor == Date(2025, 1, 15)
    requires Valid(d) && DayNumber(d) == DayNumber(anchor) + 45
    ensures d == Date(2025, 3, 1)
  {
    var e := Date(2025, 3, 1);
    assert DayNumber(e) == DayNumber(anchor) + 45;
    DayNumberInjective(d, e);
  }
}
