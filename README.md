# SLA report generator — a Dafny model of its core

The report generator reads a sheet of support tickets. Each ticket has a
"Type" and three date cells: "Created time", "Resolved time" and "Closed
time", written DD-MM-YYYY. For each ticket the generator:

- looks up the number of days its type is allowed (`slaTimes`);
- writes an "SLA Breach Date" (the creation date plus that many calendar
  days);
- writes an "SLA Compliance" verdict ("Within SLA", "Exceeds SLA", "No SLA
  defined for this" or "No Created Time");
- counts the tickets within and beyond their SLA, overall and per ticket
  type;
- computes the share of tickets within SLA.

The "Type" and "SLA Compliance" drop-downs offer the distinct values found
in the sheet. The report table shows the tickets that pass both filters.

The model is split into modules:

- `JsText` and `JsDate` model the parts of JavaScript that the code relies
  on: trimming, `split`, `Number` of a text, `new Date(y, m, d)`,
  `getDate`/`setDate`, subtracting two dates, and padded date text.
- `Calendar` models the proleptic Gregorian calendar behind JavaScript dates.
- `Sla` models the per-ticket decision. Each record is a `Ticket` object
  whose two annotation fields are written in place.
- `Report` models the loop of `generateReport`, its counters and the by-type
  table.
- `Filters` models the drop-down choices and the filter test.

These properties are proved:

- Dates read back exactly: a DD-MM-YYYY text of a real calendar date with a
  year from 1000 to 9999, parsed and formatted, gives the same text. Other
  texts need not: "31-02-2024" comes back as "02-03-2024", and "01-01-0050"
  as "01-01-1950".
- For a valid created Date and a valid end of the SLA clock, the verdict is
  "within SLA" exactly when the end falls less than budget + 1 whole days
  after creation. An Invalid Date on either side always gives "Exceeds SLA".
- After the loop, every ticket carries its own verdict, even when the same
  record appears twice in the sheet.
- The per-type rows add up to the overall counters.
- Filtering on a compliance text counts exactly the tickets with that
  outcome.

## Model

| member | source | states |
|---|---|---|
| `JsText.Trim` | index.js:77-79 | the trimmed text is a contiguous piece of the cell; everything cut off before and after it is JavaScript whitespace, and the result neither starts nor ends with whitespace |
| `JsText.Split` | index.js:224 | the parts never contain the separator and joined with it give back the text; there is always at least one part |
| `JsText.SplitAtFirstSeparator` | index.js:224 | splitting cuts at the first separator: the text before it is the first part |
| `JsText.StringToNumber` | index.js:226-229 | `Number` of a cell part is finite exactly for a digit string, and then it is the decimal value of the digits; the empty part reads as 0; anything else is NaN |
| `JsText.NumberOfNatText` | index.js:226-229 | reading the decimal text of a natural number gives the number back |
| `JsText.NatTextOfDigits` | index.js:237-239 | writing the value of a digit string without leading zero gives that string back |
| `JsText.ZeroPad2Reads` | index.js:237-238 | `("0" + n).slice(-2)` of a number below 100 is two digits reading back as that number |
| `JsText.ZeroPad2OfDigits` | index.js:237-238 | padding the value of any two-digit text gives that text back, leading zero included |
| `Calendar.CivilFromDays` | index.js:237-239 | the day, month and year read off a Date form the one valid calendar date whose day number is the Date's |
| `Calendar.CivilOfDaysFromCivil` | index.js:229 | a valid date turned into a day number and read back gives the same date |
| `Calendar.DaysFromCivilInjective` | index.js:229 | two valid dates with the same day number are the same date |
| `Calendar.RollIntoNextMonth` | index.js:97 | a day past the end of a month is the matching day of the next month, and a day past the end of December is the matching day of January of the next year, as `setDate` rolls over |
| `JsDate.NewDate` | index.js:229 | `new Date(year, month, day)` is an Invalid Date if any part is NaN, and a valid result falls on a midnight |
| `JsDate.ParseDayMonthYear` | index.js:222-233 | a Date is produced exactly when the text is non-empty and splits into three '-'-separated parts; a valid one falls on a midnight |
| `JsDate.NewDateOfDate` | index.js:229 | for a real date outside years 0 to 99, the parsed Date is midnight of that calendar day |
| `JsDate.NewDateOfShortYear` | index.js:229 | years 0 to 99 are read as 1900 to 1999 |
| `JsDate.February31st` | index.js:229 | 31 February of a leap year outside years 0 to 99 gives the same Date as 2 March of that year, instead of failing |
| `JsDate.GetDate` | index.js:97 | `getDate()` is a day of the month (1 to 31) for a valid Date and NaN for an Invalid one |
| `JsDate.GetMonth` | index.js:238 | `getMonth()` is 0 to 11 for a valid Date and NaN for an Invalid one |
| `JsDate.GetFullYear` | index.js:239 | `getFullYear()` is a number exactly when the Date is valid |
| `JsDate.DateFields` | index.js:237-239 | the year, month and day read off any valid Date form a valid calendar date whose day number is the Date's |
| `JsDate.SetDate` | index.js:97 | `setDate` on an Invalid Date, or with a NaN day, gives an Invalid Date |
| `JsDate.SetDateKeepsTime` | index.js:97 | `setDate` keeps the time of day of the Date it changes |
| `JsDate.SetDateInMonth` | index.js:97 | `setDate` with a day inside the Date's month gives that day and keeps the month and year |
| `JsDate.DaysBetween` | index.js:89-92 | the whole days between two valid Dates are the floor of the difference in days; NaN when either Date is Invalid |
| `JsDate.DaysBetweenMidnights` | index.js:89-92 | between two midnights the whole days are the difference of the day numbers |
| `JsDate.SlaBreachDate` | index.js:94-101 | a breach date exists exactly when there is a created Date and a budget |
| `JsDate.SlaBreachDateShift` | index.js:94-101 | `setDate(getDate() + k)` moves a valid Date on by exactly k days and keeps its time of day; an Invalid Date stays Invalid |
| `JsDate.FormatDate` | index.js:235-243 | a text is produced exactly when there is a date |
| `JsDate.FormatValidDate` | index.js:235-243 | a valid Date is written as two day digits, '-', two month digits, '-', the year, each reading back as the Date's field |
| `JsDate.FormatInvalidDate` | index.js:235-243 | an Invalid Date is written "aN-aN-NaN" |
| `JsDate.FormatOfParse` | index.js:222-243 | parsing a DD-MM-YYYY text of a real date with a year from 1000 to 9999 and formatting the Date gives the text back |
| `JsDate.ParseOfFormat` | index.js:222-243 | a midnight Date in year 100 or later, formatted and parsed, gives the same Date |
| `JsDate.ShortYearMoves` | index.js:222-243 | a Date in years 0 to 99, formatted and parsed, comes back 1900 years later, not as itself |
| `Sla.SlaDays` | index.js:60-67 | a type has a budget exactly when it is a key of the table; the budget is the table's entry, between 2 and 30 days |
| `Sla.SlaDaysTable` | index.js:60-67 | the six listed types have budgets 2, 4, 10, 5, 30 and 5 days; a ticket without a type has none |
| `Sla.TypeKey` | index.js:85 | a ticket's type is looked up under its own text; a missing type is looked up under the text "undefined" |
| `Sla.CellText` | index.js:77-79 | a missing cell reads as the empty text |
| `Sla.ClockEnd` | index.js:111-124 | the SLA clock stops at the resolved time if there is one, else at the closed time if there is one, else at the current time |
| `Sla.ParseCell` | index.js:77-83 | a cell parses exactly when its trimmed text is non-empty and has three '-'-separated parts |
| `Sla.Classify` | index.js:103-140 | the verdict is never "No Resolution"; it is Within or Exceeds exactly when the type has a budget and the created time parses |
| `Sla.Ticket.Judge` | index.js:103-140 | the source's branches, with their "N/A" and "No Resolution" fallbacks, write into the record exactly the verdict `Classify` gives |
| `Sla.Ticket.Annotate` | index.js:77-140 | after a visit the record carries the verdict its own cells call for |
| `Sla.LabelsDistinct` | index.js:104-139 | the five compliance texts are pairwise different, so comparing texts compares outcomes |
| `Sla.NoSlaWhateverTheDates` | index.js:103-105 | a type without a budget gets "No SLA defined for this" in both columns, whatever its dates |
| `Sla.NoCreatedTimeWhateverTheEnd` | index.js:137-140 | with a budget but no parsed created time, both columns read "No Created Time" |
| `Sla.BreachDateIsCreatedPlusBudget` | index.js:94-107 | the breach date written is the created date moved on by the budget in days, formatted |
| `Sla.InvalidCreatedBreachDate` | index.js:107-126 | a created cell that parses to an Invalid Date gives the breach date text "aN-aN-NaN" |
| `Sla.BreachDateNeverNotApplicable` | index.js:115-126 | once the created time parses, the "N/A" fallback is never written |
| `Sla.WithinIffBeforeDeadline` | index.js:109-130 | with valid dates, the ticket is within SLA exactly when the end of the clock comes less than budget + 1 days after creation, and exceeds otherwise |
| `Sla.InvalidDateExceeds` | index.js:113-128 | an Invalid created or end Date makes the day count NaN, and the ticket exceeds its SLA |
| `Sla.EarlyEndIsWithin` | index.js:119-128 | a ticket resolved or closed no later than it was created is within SLA |
| `Sla.CalendarDaysDecide` | index.js:89-128 | for dates read from cells, the verdict compares calendar days: within exactly when the end day is at most budget days after the created day |
| `Sla.ResolvedTimeTakesPrecedence` | index.js:111-124 | with a resolved time, neither the closed time nor the clock affects the verdict |
| `Sla.ClosedTimeTakesPrecedence` | index.js:111-124 | without a resolved time, a closed time decides and the clock does not matter |
| `InsertionOrder.Distinct` | index.js:22-33 | the set of values added is never longer than the values, is empty when nothing was added, and holds the last value added |
| `InsertionOrder.DistinctSameElements` | index.js:22-33 | the set holds exactly the values added |
| `InsertionOrder.DistinctNoDuplicates` | index.js:22-33 | no value is held twice |
| `InsertionOrder.DistinctOfPrefix` | index.js:22-33 | a value keeps the place it got when first added |
| `InsertionOrder.DistinctOfDistinct` | index.js:22-33 | values without duplicates are kept as they are |
| `InsertionOrder.DistinctIdempotent` | index.js:22-33 | adding the same values again adds nothing |
| `Filters.TruthyMembers` | index.js:27-31 | a text is collected exactly when some cell holds it and it is not empty |
| `Filters.AddTruthy` | index.js:27-32 | `if (cell) set.add(cell)` keeps the set duplicate-free, keeps what it held, and adds exactly the truthy cell |
| `Filters.PopulateFilters` | index.js:22-33 | the offered types and compliance texts are the distinct truthy cells of the sheet, in order of first appearance |
| `Filters.OfferedTypes` | index.js:22-33 | a type is offered exactly when a ticket carries it and it is not empty; none is offered twice |
| `Filters.Matches` | index.js:161-165 | empty filters pass every ticket; a ticket whose type and compliance equal the filters passes; a passing ticket equals each non-empty filter |
| `Filters.FilterTickets` | index.js:161-165 | the filter never shows more tickets than the sheet has |
| `Filters.FilterMembers` | index.js:161-165 | a ticket is shown exactly when it is in the sheet and matches both non-empty filters |
| `Filters.FilterAppend` | index.js:161-165 | filtering keeps the sheet's order |
| `Filters.NoFilterShowsAll` | index.js:161-165 | with both filters empty, every ticket is shown |
| `Filters.FilterIdempotent` | index.js:161-165 | filtering twice with the same filters is filtering once |
| `Filters.OfferedTypeSelectsTickets` | index.js:22-33 | every type offered in the drop-down selects at least one ticket |
| `Report.Counts.Bump` | index.js:148-152 | one more ticket raises its outcome's counter by one and leaves the other as it was |
| `Report.GenerateReport` | index.js:55-153 | an empty sheet gives no report; otherwise every ticket is annotated and the counters, total and by-type table are the summary of the sheet's verdicts |
| `Report.CountTicket` | index.js:132-152 | counting one ticket by the text written into it extends the tallies by its type key and outcome |
| `Report.CountOverall` | index.js:132-136 | the overall within or exceeded counter goes up by one exactly when the ticket's text is that outcome |
| `Report.CountByType` | index.js:144-152 | the ticket's type row is created at zero if new and then bumped by its outcome; a new type is listed last |
| `Report.ReadOutcome` | index.js:132-136 | an annotated ticket's compliance text is "Within SLA" or "Exceeds SLA" exactly when that is its outcome |
| `Report.AllAnnotated` | index.js:76-153 | once the loop has written each ticket's verdict, every ticket is annotated, however often a record appears |
| `Report.Visit` | index.js:76-153 | one pass of the loop body over ticket n leaves the first n + 1 tickets carrying the verdicts their cells call for, and the counters and by-type table equal to the tallies of those tickets' type keys and outcomes |
| `Report.Tally` | index.js:144-152 | the by-type table is empty before any ticket and has a row for the last ticket's type after it |
| `Report.SummaryStep` | index.js:132-152 | one more ticket raises its outcome's count, creates its type's row at zero if new, bumps that row, and lists a new type last |
| `Report.TallyKeys` | index.js:144-146 | the by-type table has a row for exactly the type keys met |
| `Report.RowsListed` | index.js:144-146 | the rows are listed once each, in the order their types were first met, and they are the table's rows |
| `Report.RowCountsItsType` | index.js:144-152 | each row counts exactly the tickets of its type with that outcome |
| `Report.RowsAddUp` | index.js:132-152 | the rows of the by-type table add up to the overall within and exceeded counters |
| `Report.RowSumStep` | index.js:144-152 | bumping one row of the by-type table raises the sum of the rows for that outcome by one and leaves the other outcome's sum as it was |
| `Report.CountsWithinTotal` | index.js:69-71 | within and exceeded together never exceed the number of tickets |
| `Report.AllCounted` | index.js:69-71 | within and exceeded add up to the number of tickets exactly when every outcome is one of the two counted ones |
| `Report.EveryTicketCounted` | index.js:103-140 | within and exceeded add up to the number of tickets exactly when every ticket's type has a budget and its created time parses |
| `Report.Summary.Percentage` | index.js:155 | the percentage times the number of tickets is 100 times the number within SLA |
| `Report.PercentageBounds` | index.js:155 | the compliance percentage lies between 0 and 100 |
| `Report.ComplianceFilterAgrees` | index.js:161-165 | after the loop, filtering on a compliance text shows exactly as many tickets as have that outcome |

## Left out

- Loading the sheet is not modelled: file upload, `FileReader`, the XLSX library and reading cells. The sheet arrives as a sequence of `Ticket` records.
- The DOM is not modelled: rendering of the tables and the summary, the `alert` text, `applyFilters` (it only calls `generateReport` again), and reading the filter values from the page. The filter values are parameters.
- The clock is a parameter `now`, given in milliseconds. The source calls `new Date()` afresh for each open ticket, inside the loop (index.js:112), so tickets late in a long pass can see a later time than early ones. The model uses one `now` for the whole pass.
- Time zones and daylight saving are not modelled: local time is taken to be UTC. In a zone with daylight saving, two local midnights can be 23 or 25 hours apart. The source's floor of the hour difference can then differ from the model's whole days.
- Numbers are not floating point. Time values and day counts are exact integers, and `slaPercentage` is an exact ratio with no `toFixed` rounding. Digit texts long enough to lose precision as floats give Invalid Dates in both.
- Cells that the sheet library delivers as numbers or Date objects are left out. Cells are text or missing.
- `Sla.ParseCell` is limited to texts whose `Number` the model computes (the `DateCell` type): each of the three parts is a digit string, or contains a character no numeric literal uses. Parts such as "+5", " 5", "1e1" or "0x1F" are left out.
- Ticket types that name properties inherited by every JavaScript object ("constructor", "toString", "__proto__" and the like) are not modelled. In the source they hit `Object.prototype` in both `slaTimes` and `ticketTypeSLA`. The model treats them as ordinary keys.
- `Report.RowsListed`: the rows are listed in the order their types were first met. `Object.entries` lists integer-like keys such as "7" first, in numeric order. That ordering of the by-type table is not modelled.
- Display-only columns of the report table are not modelled.
- The source updates the overall counters inside the created-time branch (index.js:132-136). The model counts from the outcome instead. This is the same thing, because only that branch writes "Within SLA" or "Exceeds SLA".
- The "No Resolution" branch (index.js:129) is written out in `Sla.Ticket.Judge`, but it can never be reached: that branch runs only when a resolved or closed time exists. `Sla.Classify` proves that this verdict never occurs.
