/**
  * The per-ticket SLA decision of the report generator: the day budget of a
  * ticket type, the breach date (creation date plus the budget in calendar
  * days) and the compliance verdict (whole days from creation to
  * resolution, closure or now, against the budget), written into the
  * ticket record in place.
  */
module Sla {
  import opened Wrappers
  import opened JsText
  import opened JsDate

  /** `slaTimes`: the days allowed to handle a ticket of each type. */
  const SlaTimes: map<string, int> := map[
    "Question" := 2,
    "Incident" := 4,
    "Bug" := 10,
    "Data Extraction Request" := 5,
    "Feature Request" := 30,
    "User Error" := 5
  ]

  /** The property name a ticket type is looked up under: a missing type is the key "undefined". */
  function TypeKey(ticketType: Option<string>): (key: string)
    ensures ticketType.Some? ==> key == ticketType.value
    ensures ticketType.None? ==> key == "undefined"
  {
    match ticketType
    case None => "undefined"
    case Some(s) => s
  }

  /**
    * `slaTimes[ticket.Type] || null`: the budget of the ticket's type; a
    * type outside the table, and a budget of 0, give no SLA.
    */
  function SlaDays(ticketType: Option<string>): (r: Option<int>)
    ensures r.Some? <==> TypeKey(ticketType) in SlaTimes
    ensures r.Some? ==> r.value == SlaTimes[TypeKey(ticketType)] && 2 <= r.value <= 30
  {
    var key := TypeKey(ticketType);
    if key in SlaTimes && SlaTimes[key] != 0 then Some(SlaTimes[key]) else None
  }

  /** The outcome written into "SLA Compliance". */
  datatype Status = WithinSla | ExceedsSla | NoResolution | NoSlaDefined | NoCreatedTime {

    /** The text the record carries for this outcome. */
    function Label(): string {
      match this
      case WithinSla => "Within SLA"
      case ExceedsSla => "Exceeds SLA"
      case NoResolution => "No Resolution"
      case NoSlaDefined => "No SLA defined for this"
      case NoCreatedTime => "No Created Time"
    }
  }

  /** The two annotations of a ticket: the "SLA Breach Date" text and the compliance outcome. */
  datatype Verdict = Verdict(breachDate: Option<string>, compliance: Status)

  /** The end of the SLA clock: the resolved time, else the closed time, else now. */
  function ClockEnd(resolved: Option<Date>, closed: Option<Date>, now: int): (end: Date)
    ensures resolved.Some? ==> end == resolved.value
    ensures resolved.None? && closed.Some? ==> end == closed.value
    ensures resolved.None? && closed.None? ==> end == Time(now)
  {
    if resolved.Some? then resolved.value
    else if closed.Some? then closed.value
    else Time(now)
  }

  /** `daysToResolve <= slaDays`: a NaN day count compares false. */
  predicate WithinBudget(days: Num, budget: int) {
    days.Finite? && days.value <= budget
  }

  /**
    * What the report writes into a ticket: no SLA for a type without a
    * budget, no created time when the created cell does not parse, and
    * otherwise the breach date and whether the whole days from creation to
    * the end of the clock stay within the budget.
    */
  function Classify(ticketType: Option<string>, created: Option<Date>, resolved: Option<Date>, closed: Option<Date>, now: int): (v: Verdict)
    ensures v.compliance != NoResolution
    ensures (v.compliance == WithinSla || v.compliance == ExceedsSla) <==> SlaDays(ticketType).Some? && created.Some?
  {
    match SlaDays(ticketType)
    case None => Verdict(Some(NoSlaDefined.Label()), NoSlaDefined)
    case Some(budget) =>
      match created
      case None => Verdict(Some(NoCreatedTime.Label()), NoCreatedTime)
      case Some(start) =>
        var days := DaysBetween(start, ClockEnd(resolved, closed, now));
        Verdict(FormatDate(SlaBreachDate(created, SlaDays(ticketType))), if WithinBudget(days, budget) then WithinSla else ExceedsSla)
  }

  /** `(cell || "").toString().trim()` for a text cell; a missing cell reads as "". */
  function CellText(cell: Option<string>): (text: string)
    ensures cell.None? ==> text == ""
  {
    Trim(cell.GetOr(""))
  }

  /** A date cell whose trimmed text the date parser handles. */
  type DateCell = cell: Option<string> | ParseSupported(CellText(cell)) witness None

  /** `parseDayMonthYear` of a cell's trimmed text. */
  function ParseCell(cell: DateCell): (r: Option<Date>)
    ensures r.Some? <==> |Split(CellText(cell), '-')| == 3 && CellText(cell) != ""
  {
    ParseDayMonthYear(CellText(cell))
  }

  /**
    * A ticket record: the cells read from the sheet, which the report never
    * changes, and the two annotation properties it writes.
    */
  class Ticket {
    const ticketType: Option<string>
    const createdCell: DateCell
    const resolvedCell: DateCell
    const closedCell: DateCell
    var slaBreachDate: Option<string>
    var slaCompliance: Option<string>

    /** A record as the sheet delivers it; the annotation columns may already be present in the sheet. */
    constructor(ticketType: Option<string>, createdCell: DateCell, resolvedCell: DateCell, closedCell: DateCell,
                slaBreachDate: Option<string>, slaCompliance: Option<string>)
      ensures this.ticketType == ticketType
      ensures this.createdCell == createdCell && this.resolvedCell == resolvedCell && this.closedCell == closedCell
      ensures this.slaBreachDate == slaBreachDate && this.slaCompliance == slaCompliance
    {
      this.ticketType := ticketType;
      this.createdCell := createdCell;
      this.resolvedCell := resolvedCell;
      this.closedCell := closedCell;
      this.slaBreachDate := slaBreachDate;
      this.slaCompliance := slaCompliance;
    }

    /** The annotations this record should carry at time `now`; they depend on its cells only. */
    function Expected(now: int): Verdict {
      Classify(ticketType, ParseCell(createdCell), ParseCell(resolvedCell), ParseCell(closedCell), now)
    }

    /** Whether the record's two annotation columns hold the verdict `v`. */
    predicate Carries(v: Verdict)
      reads this
    {
      slaBreachDate == v.breachDate && slaCompliance == Some(v.compliance.Label())
    }

    /** Whether the record carries the annotations it should carry at time `now`. */
    predicate Annotated(now: int)
      reads this
    {
      Carries(Expected(now))
    }

    /**
      * The body of the report's per-ticket loop: parse the three trimmed
      * date cells, then write "SLA Breach Date" and "SLA Compliance".
      */
    method Annotate(now: int)
      modifies this
      ensures Annotated(now)
    {
      var createdTime := ParseCell(createdCell);
      var resolvedTime := ParseCell(resolvedCell);
      var closedTime := ParseCell(closedCell);
      Judge(createdTime, resolvedTime, closedTime, now);
    }

    /**
      * The decision proper, from the parsed dates: the source's nested
      * branches, with its "N/A" and "No Resolution" fallbacks, write what
      * `Classify` says.
      */
    method Judge(createdTime: Option<Date>, resolvedTime: Option<Date>, closedTime: Option<Date>, now: int)
      modifies this
      ensures slaBreachDate == Classify(ticketType, createdTime, resolvedTime, closedTime, now).breachDate
      ensures slaCompliance == Some(Classify(ticketType, createdTime, resolvedTime, closedTime, now).compliance.Label())
    {
      var slaDays := SlaDays(ticketType);
      match slaDays {
        case None =>
          slaBreachDate := Some("No SLA defined for this");
          slaCompliance := Some("No SLA defined for this");
        case Some(budget) =>
          var breach := SlaBreachDate(createdTime, slaDays);
          match createdTime {
            case Some(created) =>
              if resolvedTime.None? && closedTime.None? {
                var daysToResolve := DaysBetween(created, Time(now));
                slaBreachDate := if breach.Some? then FormatDate(breach) else Some("N/A");
                slaCompliance := Some(if WithinBudget(daysToResolve, budget) then "Within SLA" else "Exceeds SLA");
              } else {
                var daysToResolve := Finite(0);
                match resolvedTime {
                  case Some(resolved) =>
                    daysToResolve := DaysBetween(created, resolved);
                  case None =>
                    match closedTime {
                      case Some(closed) =>
                        daysToResolve := DaysBetween(created, closed);
                      case None =>
                    }
                }
                slaBreachDate := if breach.Some? then FormatDate(breach) else Some("N/A");
                slaCompliance := Some(
                  if resolvedTime.Some? || closedTime.Some? then
                    (if WithinBudget(daysToResolve, budget) then "Within SLA" else "Exceeds SLA")
                  else "No Resolution");
              }
            case None =>
              slaCompliance := Some("No Created Time");
              slaBreachDate := Some("No Created Time");
          }
      }
    }
  }

  // ----- Properties of the decision -----

  /** The five outcome texts are pairwise different, so comparing texts compares outcomes. */
  lemma LabelsDistinct(a: Status, b: Status)
    ensures a.Label() == b.Label() <==> a == b
  {
  }

  /** The budget table: the six listed types and their days; any other type, or none, has no SLA. */
  lemma SlaDaysTable(ticketType: Option<string>)
    ensures ticketType == Some("Question") ==> SlaDays(ticketType) == Some(2)
    ensures ticketType == Some("Incident") ==> SlaDays(ticketType) == Some(4)
    ensures ticketType == Some("Bug") ==> SlaDays(ticketType) == Some(10)
    ensures ticketType == Some("Data Extraction Request") ==> SlaDays(ticketType) == Some(5)
    ensures ticketType == Some("Feature Request") ==> SlaDays(ticketType) == Some(30)
    ensures ticketType == Some("User Error") ==> SlaDays(ticketType) == Some(5)
    ensures ticketType.None? ==> SlaDays(ticketType).None?
  {
  }

  /** A type without a budget is marked "No SLA defined for this" in both columns, whatever its dates. */
  lemma NoSlaWhateverTheDates(ticketType: Option<string>, created: Option<Date>, resolved: Option<Date>, closed: Option<Date>, now: int)
    requires SlaDays(ticketType).None?
    ensures Classify(ticketType, created, resolved, closed, now) == Verdict(Some("No SLA defined for this"), NoSlaDefined)
  {
  }

  /** A type with a budget but no parsed created time is marked "No Created Time" in both columns. */
  lemma NoCreatedTimeWhateverTheEnd(ticketType: Option<string>, resolved: Option<Date>, closed: Option<Date>, now: int)
    requires SlaDays(ticketType).Some?
    ensures Classify(ticketType, None, resolved, closed, now) == Verdict(Some("No Created Time"), NoCreatedTime)
  {
  }

  /** With a budget of `k` days, the breach date is the valid created date moved on `k` days, formatted. */
  lemma BreachDateIsCreatedPlusBudget(ticketType: Option<string>, k: int, created: int, resolved: Option<Date>, closed: Option<Date>, now: int)
    requires SlaDays(ticketType) == Some(k)
    ensures Classify(ticketType, Some(Time(created)), resolved, closed, now).breachDate
      == FormatDate(Some(TimeClip(created + k * 86400000)))
  {
    ClassifiedBreach(ticketType, Time(created), resolved, closed, now);
    FormatShiftedDate(created, k);
  }

  /** With a budget and a created date, the breach date written is `calculateSlaBreachDate`'s, formatted. */
  lemma ClassifiedBreach(ticketType: Option<string>, created: Date, resolved: Option<Date>, closed: Option<Date>, now: int)
    requires SlaDays(ticketType).Some?
    ensures Classify(ticketType, Some(created), resolved, closed, now).breachDate
      == FormatDate(SlaBreachDate(Some(created), SlaDays(ticketType)))
  {
  }

  /** An Invalid created date gives the breach date text "aN-aN-NaN". */
  lemma InvalidCreatedBreachDate(ticketType: Option<string>, resolved: Option<Date>, closed: Option<Date>, now: int)
    requires SlaDays(ticketType).Some?
    ensures Classify(ticketType, Some(InvalidDate), resolved, closed, now).breachDate == Some("aN-aN-NaN")
  {
    SlaBreachDateShift(InvalidDate, SlaDays(ticketType).value);
    FormatInvalidDate();
  }

  /** Every Date, valid or not, is written with a '-' as its third character. */
  lemma FormattedDash(d: Date)
    ensures |FormatDate(Some(d)).value| > 2 && FormatDate(Some(d)).value[2] == '-'
  {
    match d
    case InvalidDate => FormatInvalidDate();
    case Time(t) => FormatValidDate(t);
  }

  /** Once the created time parses, the "N/A" fallback of the breach date is never reached. */
  lemma BreachDateNeverNotApplicable(ticketType: Option<string>, created: Date, resolved: Option<Date>, closed: Option<Date>, now: int)
    requires SlaDays(ticketType).Some?
    ensures Classify(ticketType, Some(created), resolved, closed, now).breachDate.Some?
    ensures Classify(ticketType, Some(created), resolved, closed, now).breachDate != Some("N/A")
  {
    var breach := SlaBreachDate(Some(created), SlaDays(ticketType));
    FormattedDash(breach.value);
  }

  /**
    * With a budget of `k` days and valid created and end dates, the ticket
    * is within SLA exactly when the end comes less than `k + 1` whole days
    * after creation; otherwise it exceeds. The end is the resolved time,
    * else the closed time, else now.
    */
  lemma WithinIffBeforeDeadline(ticketType: Option<string>, k: int, created: int, end: int, resolved: Option<Date>, closed: Option<Date>, now: int)
    requires SlaDays(ticketType) == Some(k)
    requires ClockEnd(resolved, closed, now) == Time(end)
    ensures var v := Classify(ticketType, Some(Time(created)), resolved, closed, now);
      && (v.compliance == WithinSla <==> end - created < (k + 1) * 86400000)
      && (v.compliance == ExceedsSla <==> end - created >= (k + 1) * 86400000)
  {
    var n := DaysBetween(Time(created), Time(end)).value;
    FloorBelowBudget(end - created, n, k);
  }

  /** For the whole days `n` in a span, `n <= k` exactly when the span is shorter than `k + 1` days. */
  lemma FloorBelowBudget(span: int, n: int, k: int)
    requires n * 86400000 <= span < (n + 1) * 86400000
    ensures n <= k <==> span < (k + 1) * 86400000
  {
    if n <= k {
      assert (n + 1) * 86400000 <= (k + 1) * 86400000;
    } else {
      assert (k + 1) * 86400000 <= n * 86400000;
    }
  }

  /** An Invalid created date, or an Invalid end date, makes the day count NaN: the ticket exceeds its SLA. */
  lemma InvalidDateExceeds(ticketType: Option<string>, created: Date, resolved: Option<Date>, closed: Option<Date>, now: int)
    requires SlaDays(ticketType).Some?
    requires created.InvalidDate? || ClockEnd(resolved, closed, now).InvalidDate?
    ensures Classify(ticketType, Some(created), resolved, closed, now).compliance == ExceedsSla
  {
  }

  /** A ticket resolved (or closed) no later than it was created is within SLA. */
  lemma EarlyEndIsWithin(ticketType: Option<string>, k: int, created: int, end: int, resolved: Option<Date>, closed: Option<Date>, now: int)
    requires SlaDays(ticketType) == Some(k)
    requires ClockEnd(resolved, closed, now) == Time(end) && end <= created
    ensures Classify(ticketType, Some(Time(created)), resolved, closed, now).compliance == WithinSla
  {
    WithinIffBeforeDeadline(ticketType, k, created, end, resolved, closed, now);
  }

  /**
    * For dates read from cells (all at midnight) the verdict compares
    * calendar days: within SLA exactly when the end's day number is at most
    * `k` days after the created day number.
    */
  lemma CalendarDaysDecide(ticketType: Option<string>, k: int, created: int, end: int, resolved: Option<Date>, closed: Option<Date>, now: int)
    requires SlaDays(ticketType) == Some(k)
    requires ClockEnd(resolved, closed, now) == Time(end)
    requires created % 86400000 == 0 && end % 86400000 == 0
    ensures Classify(ticketType, Some(Time(created)), resolved, closed, now).compliance == WithinSla
      <==> end / 86400000 - created / 86400000 <= k
  {
    DaysBetweenMidnights(created, end);
  }

  /** A resolved time decides the verdict alone: the closed time and the clock no longer matter. */
  lemma ResolvedTimeTakesPrecedence(ticketType: Option<string>, created: Option<Date>, resolved: Date,
                                    closed1: Option<Date>, now1: int, closed2: Option<Date>, now2: int)
    ensures Classify(ticketType, created, Some(resolved), closed1, now1) == Classify(ticketType, created, Some(resolved), closed2, now2)
  {
  }

  /** Without a resolved time, a closed time decides the verdict and the clock does not matter. */
  lemma ClosedTimeTakesPrecedence(ticketType: Option<string>, created: Option<Date>, closed: Date, now1: int, now2: int)
    ensures Classify(ticketType, created, None, Some(closed), now1) == Classify(ticketType, created, None, Some(closed), now2)
  {
  }
}
