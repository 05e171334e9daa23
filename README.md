# CHP 108A inspection form — a Dafny model of its core

The application fills in the California Highway Patrol 108A bus maintenance
and safety inspection form and exports it as a one-page PDF. One year of
inspections is twelve month slots, JAN to DEC. Each slot holds an OK flag,
a DEF flag, a date, a mileage reading and a signature image. A 40-item
checklist is printed against those slots.

This project models the logic at the core of the application:

- `Inspection` (`inspection.dfy`): the month slots, the item tables and the
  empty form, from `src/types/inspection.ts`.
- `CivilDate` (`civil_date.dfy`): the calendar arithmetic and the
  `yyyy-MM-dd` parsing and formatting the application takes from date-fns.
  It uses the proleptic Gregorian calendar, counts days from 0000-01-01 and
  prints years as years of era.
- `DateUtils` (`date_utils.dfy`): the 45-day inspection schedule computed
  from the January date, the two date formatters, and the next-inspection
  lookup, from `src/lib/dateUtils.ts`.
- `MonthControls` (`month_controls.dfy`): the signing panel. It covers the
  signable and unsigned-signable month lists, the Sign All enablement rule,
  each row's Sign/Unsign action, and the month name each row shows.
- `InspectionForm` (`inspection_form.dfy`): the form's state handlers.
  - A React updater `prev => next` is modelled as a value transformer.
  - The handlers that spread a record become functions.
  - The handlers that copy the months record and rewrite it in a loop over
    MONTHS become methods with that loop. Each is proved equal to a
    function that describes the new record.
- `PdfGenerator` (`pdf_generator.dfy`): the decisions made while page 1 is
  drawn. These are the row texts (star prefix and truncation), the X marks
  in the grid, the 3×4 date and signature grids, the signature data-URI
  match, the byte copy, and the image scale.
- `Wrappers` (`wrappers.dfy`): `Option`.

A `Record<Month, T>` is a `map<Month, T>`. `Complete` states that all
twelve keys are present.

Some behaviours of the code are worth stating plainly:

- Slot i of the schedule holds the i-th date of the sequence. No date is
  moved into the slot of the calendar month it falls in.
- The PDF always has exactly one page. There is no repair-items appendix
  page.
- Deficiencies are not sampled. Every item row gets the month's X marks.
- Items that do not apply to the vehicle's brakes are drawn like any other
  item. They are not struck through.
- The PDF has no interactive form fields.
- A signature box shows its date whenever the slot holds a valid date,
  signed or not.
- When OK and DEF are both set, both X marks are drawn.

## Model

| member | source | states |
|---|---|---|
| Inspection.MonthIndex | src/types/inspection.ts:5 | Every slot has a position in MONTHS, and MONTHS at that position is the slot |
| Inspection.FullName | src/types/inspection.ts:7-20 | Each full month name is at least three letters, and its first three letters, upper-cased, are the slot's key |
| Inspection.MonthsIndexed | src/types/inspection.ts:5 | The position of MONTHS[i] is i, for each of the twelve entries |
| Inspection.FullNamesDistinct | src/types/inspection.ts:7-20 | Different slots have different full names |
| Inspection.ToUpper | src/lib/pdfGenerator.ts:390 | Upper-casing keeps the length and upper-cases each character in place |
| Inspection.ItemNumber | src/lib/pdfGenerator.ts:302 | The printed item number is 1-based |
| Inspection.ItemTables | src/types/inspection.ts:71-122 | There are 40 items. The air-brake and hydraulic-brake subsets lie within them, are disjoint, and are items 23-27, 32 and 20-21. The CVC items are exactly numbers 1 to 21 |
| Inspection.EmptyFormDataUnique | src/types/inspection.ts:125-149 | There is only one empty form |
| Inspection.CreateEmptyFormData | src/types/inspection.ts:125-149 | The loop fills all twelve slots with a blank entry (no flags, empty strings), and the vehicle has the default carrier and empty fields |
| CivilDate.DaysInMonth | src/lib/dateUtils.ts:32 | A month has 28 to 31 days |
| CivilDate.NextDay | src/lib/dateUtils.ts:32 | The calendar successor is a valid date exactly one day number later |
| CivilDate.AddDays | src/lib/dateUtils.ts:32 | Adding n days gives a valid date exactly n day numbers later |
| CivilDate.AddDaysAdditive | src/lib/dateUtils.ts:29-34 | Stepping a days and then b days is stepping a+b days |
| CivilDate.DayNumberInjective | src/lib/dateUtils.ts:32 | Two valid dates with the same day number are equal, so "n days later" names one date |
| CivilDate.YearMonotone | src/lib/dateUtils.ts:32 | A later day number never lies in an earlier year |
| CivilDate.ValueOfDigits | src/lib/dateUtils.ts:33 | Reading back a zero-padded rendering gives the number |
| CivilDate.DigitsOfValue | src/lib/dateUtils.ts:20 | Rendering a digit string's value at its own width gives the string back |
| CivilDate.YearOfEra | src/lib/dateUtils.ts:33 | The printed year is at least 1 and equals the year for years from 1 on |
| CivilDate.YearText | src/lib/dateUtils.ts:33 | The `yyyy` field is at least four digits and, below 10000, exactly four digits denoting the year of era |
| CivilDate.FormatIso | src/lib/dateUtils.ts:33 | `yyyy-MM-dd` output is at least ten characters |
| CivilDate.FormatLong | src/lib/dateUtils.ts:60 | `MM/dd/yyyy` is two month digits, a slash, two day digits, a slash and the year of era in at least four digits. For a valid date the fields denote its month and day, the year field denotes the year of era, and below year 10000 the text is ten characters |
| CivilDate.FormatShort | src/lib/dateUtils.ts:47 | `MM/dd/yy` is eight characters: two month digits, two day digits and two year digits, separated by slashes. The year digits denote the year of era modulo 100, and for a valid date the others denote its month and day |
| CivilDate.ParseIso | src/lib/dateUtils.ts:20-21 | A string that parses yields a valid date with a four-digit year |
| CivilDate.ParseFormatIso | src/lib/dateUtils.ts:20-33 | Parsing a formatted date gives the date back (years 1 to 9999) |
| CivilDate.FormatParseIso | src/lib/dateUtils.ts:20-33 | Formatting a parsed date gives the parsed string back (year at least 1), so only the canonical form parses |
| CivilDate.YearZeroReformats | src/lib/dateUtils.ts:20-33 | For year 0, formatting does not give back the string that was parsed |
| DateUtils.ScheduleDate | src/lib/dateUtils.ts:29-34 | The i-th date of the schedule is a valid date 45·i days after the anchor |
| DateUtils.InspectionSchedule | src/lib/dateUtils.ts:8-37 | The schedule has all twelve slots, and JAN holds either the entered text or '' |
| DateUtils.CalculateInspectionDates | src/lib/dateUtils.ts:8-37 | The blanking loop and the 45-day stepping loop produce exactly the schedule of the January string |
| DateUtils.ScheduleOfInvalid | src/lib/dateUtils.ts:12-23 | An empty or unparseable January date leaves all twelve slots empty |
| DateUtils.ScheduleOfValid | src/lib/dateUtils.ts:25-34 | For a valid January date, all twelve slots are filled. JAN holds the input verbatim, and every other slot holds its date formatted `yyyy-MM-dd` |
| DateUtils.ScheduleSpacing | src/lib/dateUtils.ts:29-34 | Each slot reads back as a date exactly 45 days after the previous slot's |
| DateUtils.ScheduleYearSpan | src/lib/dateUtils.ts:29-34 | DEC reads back as the date 495 days after the January date |
| DateUtils.SlotParses | src/lib/dateUtils.ts:26-33 | Slot i parses to the i-th date of the schedule |
| DateUtils.ExampleSchedule | src/lib/dateUtils.ts:29-34 | From 2025-01-15, the FEB slot's date is 2025-03-01 |
| DateUtils.FormatDateForDisplay | src/lib/dateUtils.ts:42-49 | Empty or invalid input gives ''. Otherwise the result is `MM/dd/yy`: month, day and the last two digits of the year of era |
| DateUtils.FormatDateForPDF | src/lib/dateUtils.ts:54-61 | Empty or invalid input gives ''. Otherwise the result is ten characters `MM/dd/yyyy` denoting month, day and year of era |
| DateUtils.FormattedIsNotIso | src/lib/dateUtils.ts:42-61 | A formatted date does not parse again, so formatting twice gives '' |
| DateUtils.GetNextInspectionInfo | src/lib/dateUtils.ts:66-81 | There is no next inspection exactly when the slot is DEC or the following slot's date is empty. Otherwise the next inspection is the following slot |
| DateUtils.NextIsFollowingSlot | src/lib/dateUtils.ts:71-81 | For a slot other than DEC whose following date is non-empty, the result is that slot and its date, whether or not the date is valid |
| DateUtils.NextInspectionOnSchedule | src/lib/dateUtils.ts:66-81 | On a schedule from a valid January date, every slot but DEC has a next inspection, dated 45 days after its own |
| MonthControls.Filter | src/components/MonthControls.tsx:35-36 | `filter` keeps exactly the elements that pass, and the result is no longer than the input |
| MonthControls.FilterKeepsOrder | src/components/MonthControls.tsx:35-36 | Filtering keeps the relative order of the kept elements |
| MonthControls.FilterTwice | src/components/MonthControls.tsx:35-36 | Filtering by p and then by q is filtering by p-and-q |
| MonthControls.SignableMonths | src/components/MonthControls.tsx:35 | At most twelve months are listed, and a month is listed exactly when its slot has OK or DEF |
| MonthControls.UnsignedSignableMonths | src/components/MonthControls.tsx:36 | A month is listed exactly when its slot has OK or DEF and no signature, and the list is no longer than the signable months |
| MonthControls.SignableMonthsExact | src/components/MonthControls.tsx:35 | The signable months are exactly the slots with OK or DEF, in MONTHS order |
| MonthControls.UnsignedSignableMonthsExact | src/components/MonthControls.tsx:36 | The unsigned signable months are exactly the slots with OK or DEF and no signature, in MONTHS order |
| MonthControls.CanSign | src/components/MonthControls.tsx:110 | A row can be signed exactly when there is a current signature and its slot is one of the months Sign All would sign |
| MonthControls.SignAllDisabled | src/components/MonthControls.tsx:61 | Sign All is enabled exactly when there is a current signature and some slot has OK or DEF and no signature |
| MonthControls.SignAllEnabledIffSomeRowCanSign | src/components/MonthControls.tsx:61-110 | Sign All is enabled exactly when some row's own Sign button would be enabled |
| MonthControls.RowActionFor | src/components/MonthControls.tsx:110-190 | A row offers Unsign exactly when it is signed. Otherwise it offers Sign, enabled exactly when there is a current signature and OK or DEF is set. An enabled Sign button appears on exactly the rows of the months Sign All would sign |
| MonthControls.DisplayMonth | src/components/MonthControls.tsx:113-115 | The shown name is always one of the twelve full month names. It is the slot's own name exactly when the date is empty or falls in that month |
| InspectionForm.ToggleOk | src/components/InspectionForm.tsx:43-55 | OK flips and DEF clears in that slot only. Every other field and every other slot is unchanged |
| InspectionForm.ToggleDef | src/components/InspectionForm.tsx:58-70 | DEF flips and OK clears in that slot only. Every other field and every other slot is unchanged |
| InspectionForm.TogglesKeepStatusExclusive | src/components/InspectionForm.tsx:43-70 | If no slot had both OK and DEF, none has after either toggle |
| InspectionForm.ToggleOkTwice | src/components/InspectionForm.tsx:43-55 | Toggling OK twice restores the form when DEF was clear |
| InspectionForm.ToggleDefTwice | src/components/InspectionForm.tsx:58-70 | Toggling DEF twice restores the form when OK was clear |
| InspectionForm.SetAllStatus | src/components/InspectionForm.tsx:73-102 | The loop gives every slot the requested OK/DEF pair and changes nothing else |
| InspectionForm.SetAllOk | src/components/InspectionForm.tsx:73-86 | Every slot becomes OK and not DEF, and nothing else changes |
| InspectionForm.SetAllDef | src/components/InspectionForm.tsx:89-102 | Every slot becomes DEF and not OK, and nothing else changes |
| InspectionForm.SetAllEffect | src/components/InspectionForm.tsx:73-102 | After Set All, each slot has exactly the requested status and keeps its date, mileage and signature. The status is exclusive, and all twelve months are signable |
| InspectionForm.SetAllLastWins | src/components/InspectionForm.tsx:73-102 | Two Set All actions in a row leave what the last one alone would |
| InspectionForm.DateChange | src/components/InspectionForm.tsx:105-143 | A JAN change recomputes every slot's date from the schedule in a loop. Any other slot takes the entered date alone |
| InspectionForm.JanuaryDateChangeEffect | src/components/InspectionForm.tsx:107-120 | A JAN change touches only dates. An empty or invalid entry clears all twelve. A valid entry keeps the text in JAN and fills every slot |
| InspectionForm.MileageChange | src/components/InspectionForm.tsx:146-157 | Only that slot's mileage changes |
| InspectionForm.SignMonth | src/components/InspectionForm.tsx:170-190 | Without a current signature nothing changes. Otherwise only that slot's signature is set to it |
| InspectionForm.UnsignMonth | src/components/InspectionForm.tsx:225-240 | Only that slot's signature is cleared |
| InspectionForm.UnsignUndoesSign | src/components/InspectionForm.tsx:170-240 | Signing an unsigned slot and then unsigning it restores the form |
| InspectionForm.SignEntry | src/components/InspectionForm.tsx:203-212 | A slot changes exactly when it needs a signature, then takes the current one. Only the signature can change, and afterwards the slot needs none |
| InspectionForm.SignAll | src/components/InspectionForm.tsx:193-215 | Without a current signature nothing changes and the count is 0. Otherwise the loop signs exactly the slots that need it, and the count equals the number on the Sign All button |
| InspectionForm.CountWhereIsFilterLength | src/components/InspectionForm.tsx:199-211 | Counting the passing elements is the length of the filtered list |
| InspectionForm.CountIsButtonCount | src/components/InspectionForm.tsx:199-211 | The number of slots needing a signature, in MONTHS order, is the Sign All button's count |
| InspectionForm.SignAllEffect | src/components/InspectionForm.tsx:193-215 | After Sign All no slot needs a signature, so the Sign All button is disabled |
| InspectionForm.SignAllIdempotent | src/components/InspectionForm.tsx:193-215 | Signing all twice is the same as once |
| InspectionForm.Reset | src/components/InspectionForm.tsx:269-275 | After confirmation, the form is the empty form and the current signature is cleared. Without confirmation, nothing changes |
| PdfGenerator.KeptLength | src/lib/pdfGenerator.ts:319-324 | The loop stops at the longest prefix whose width is at most 232, or at the empty prefix |
| PdfGenerator.DropLastThree | src/lib/pdfGenerator.ts:326 | `slice(0, -3)` is a prefix three shorter, or empty for fewer than three characters |
| PdfGenerator.FittedDescription | src/lib/pdfGenerator.ts:316-327 | The drawn text is the description itself, or a prefix shorter than the description followed by "..." |
| PdfGenerator.TruncateDescription | src/lib/pdfGenerator.ts:316-327 | The truncation loop ends and yields the kept prefix, with the ellipsis exactly when something was cut |
| PdfGenerator.FittingDescriptionUnchanged | src/lib/pdfGenerator.ts:316-327 | A description that fits, or is empty, is drawn unchanged |
| PdfGenerator.CutDescriptionShape | src/lib/pdfGenerator.ts:316-327 | A description that does not fit is drawn as a prefix followed by "...". Its length is the kept length when that is at least 3, and 3 otherwise |
| PdfGenerator.RowPrefix | src/lib/pdfGenerator.ts:303-330 | The prefix is two characters: a star or a space, then a space |
| PdfGenerator.StarredRowsAreCvcItems | src/lib/pdfGenerator.ts:302-330 | Row r gets "* " exactly when item r+1 is one of the CVC items, and "  " otherwise |
| PdfGenerator.CellMarks | src/lib/pdfGenerator.ts:351-356 | A cell has at most two marks, all in that row and column, and when it has two the OK mark comes before the DEF mark |
| PdfGenerator.CellMarksExact | src/lib/pdfGenerator.ts:351-356 | One cell has an X in its OK half exactly when the month is OK, and in its DEF half exactly when it is DEF |
| PdfGenerator.RowMarksExact | src/lib/pdfGenerator.ts:340-357 | The marks of one row are exactly the checked halves of its month columns |
| PdfGenerator.TableMarksExact | src/lib/pdfGenerator.ts:300-359 | In all 40 rows, column c has an X in a half exactly when that month's flag is set, whatever the row |
| PdfGenerator.DrawRowMarks | src/lib/pdfGenerator.ts:340-357 | The column loop of a row appends exactly that row's marks |
| PdfGenerator.DrawRowText | src/lib/pdfGenerator.ts:316-331 | One row's description cell is its prefix followed by its truncation-loop result, which is that row's entry of the row texts |
| PdfGenerator.DrawItemRows | src/lib/pdfGenerator.ts:300-359 | The row loop produces every row's text and all the marks, row by row |
| PdfGenerator.GridIndexing | src/lib/pdfGenerator.ts:378-435 | `row*4+col` over 3×4 visits each month index 0..11 exactly once, so the `>= 12` guard never fires |
| PdfGenerator.DrawDateGrid | src/lib/pdfGenerator.ts:378-410 | The grid loops produce the twelve date cells in month order |
| PdfGenerator.DateCellShowsValidDates | src/lib/pdfGenerator.ts:398-408 | A date cell draws a date, ten characters long, exactly when the slot's date is valid |
| PdfGenerator.MatchSignatureDataUri | src/lib/pdfGenerator.ts:474-476 | A match is a PNG or JPEG base64 data URI whose payload is non-empty and free of line terminators, and yields that payload |
| PdfGenerator.MatchSignatureDataUriComplete | src/lib/pdfGenerator.ts:474-476 | Every such URI matches and gives back its payload |
| PdfGenerator.BytesOfBinaryString | src/lib/pdfGenerator.ts:479-483 | For a decoded string, the copied bytes have its length and its character codes |
| PdfGenerator.CopyToBytes | src/lib/pdfGenerator.ts:479-483 | The copy loop fills a new array of the string's length with each character's code modulo 256 |
| PdfGenerator.FitScale | src/lib/pdfGenerator.ts:490-493 | The scale is positive |
| PdfGenerator.FitScaleBounds | src/lib/pdfGenerator.ts:490-499 | The scaled image is at most 60 wide and 15 high, keeps its aspect ratio, and touches one of the bounds |
| PdfGenerator.SignatureMarkFor | src/lib/pdfGenerator.ts:471-512 | An empty signature shows nothing, and anything shown comes from a signature that matched the data-URI pattern |
| PdfGenerator.SignatureMarkCases | src/lib/pdfGenerator.ts:471-512 | A signature that does not match draws nothing, not even "[Signed]". An image is drawn only after a match and fits in 60 by 15. "[Signed]" is drawn exactly when decoding or embedding fails after a match |
| PdfGenerator.DrawSignature | src/lib/pdfGenerator.ts:471-512 | The match, decode, copy, embed and scale steps give the mark that SignatureMarkFor describes |
| PdfGenerator.DrawSignatureGrid | src/lib/pdfGenerator.ts:428-518 | The grid loops produce the twelve signature boxes in month order |
| PdfGenerator.DrawPage1 | src/lib/pdfGenerator.ts:74-546 | Page 1 has the row texts of the 40 items, the table marks, and the date and signature cells |

## Left out

- Rendering. The JSX markup and styling are not modelled. Neither are the
  notification banners and their timers, nor the download of the generated
  file through a Blob, an object URL and a clicked anchor
  (src/components/InspectionForm.tsx:243-266).
- pdf-lib. Fonts, rectangles, lines, text placement, `embedPng` and `save`
  are foreign library calls. A drawn item is a value in the model, and
  coordinates, font sizes and centering are not modelled.
- The vehicle header, the static labels and the mileage header. They print
  the vehicle fields and each month's mileage as entered, with no decision
  beyond skipping an empty value.
- `handleVehicleChange`, `handleSignature` and `handleClearSignature`.
  The first two store their argument. `handleClearSignature` sets the
  current signature to ''.
- `handleGeneratePDF`. It only calls the generator and downloads the result.
- PdfGenerator.TruncateDescription: the text width is a parameter, because
  font metrics are foreign.
- PdfGenerator.DrawSignature: `atob` and PNG embedding are parameters. A
  `None` result stands for a thrown exception. A decoded image is taken to
  have positive width and height. The embedding parameter may accept the
  bytes of a JPEG data URI, while `embedPng` at
  src/lib/pdfGenerator.ts:486 rejects them, so a JPEG signature would draw
  "[Signed]". The signature pad produces only PNG data URIs
  (src/components/SignaturePad.tsx:19).
- CivilDate.ParseIso: only the `yyyy-MM-dd` form the date inputs produce is
  accepted. The other forms `parseISO` accepts (times, week dates, ordinal
  dates, expanded years) are not modelled.
- CivilDate.ParseFormatIso and CivilDate.FormatParseIso hold for years 1 and
  later only. Year 0 prints as year of era 1, as
  CivilDate.YearZeroReformats states.
- DateUtils.ScheduleSpacing, DateUtils.ScheduleYearSpan,
  DateUtils.SlotParses and DateUtils.NextInspectionOnSchedule assume the
  whole schedule lies in years 1 to 9999. Outside that range, the
  formatted dates do not read back as the same dates.
- DateUtils.GetNextInspectionInfo: `daysUntil` is not modelled, because it
  depends on the current clock and on floating-point rounding.
- MonthControls.DisplayMonth: the function mapping a date to its month is
  a parameter. `getMonthAbbreviation` is imported from src/lib/dateUtils.ts
  but is not defined there, so it is not part of this model.
- InspectionForm.SignAll: the count is the one the state updater computes.
  When React runs that updater relative to the notification is scheduling
  behaviour and is not modelled.
- InspectionForm.Reset: the answer to the confirmation dialog is a
  parameter.
- The fleet vehicle table, the signature pad, the vehicle form and the
  page layout component are data or UI only.
