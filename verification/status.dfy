/**
 * The expiration status of a document: determineDocumentStatus, the
 * status colour and the "days until / overdue" cell of the document list.
 *
 * JavaScript's `Date` is outside the model. A `DateReader` stands for
 * `new Date(text).getTime()`: the instant, in milliseconds, that the text
 * names, or `InvalidTime` for the NaN an Invalid Date reads as. The current
 * time is a parameter `now`, also in milliseconds.
 */
module Status {
  import opened Wrappers
  import opened DateText

  const MS_PER_DAY: int := 1000 * 60 * 60 * 24
  /** The last whole-day difference that is still "Expiring Soon". */
  const SOON_DAYS: int := 30

  const OVERDUE: string := "Overdue"
  const EXPIRING_SOON: string := "Expiring Soon"
  const UP_TO_DATE: string := "Up-to-date"
  const INVALID_DATE: string := "Invalid Date"

  const RED: string := "text-red-600"
  const YELLOW: string := "text-yellow-600"
  const GREEN: string := "text-green-600"
  const GRAY: string := "text-gray-600"

  /** What `getTime()` reads off a JavaScript `Date`: milliseconds, or NaN. */
  datatype Instant = Time(ms: int) | InvalidTime

  type DateReader = string -> Instant

  /**
   * `Math.floor((expiration - now) / MS_PER_DAY)`: the number of whole days
   * from `now` to `expiration`, rounded towards minus infinity.
   */
  function DaysUntil(expiration: int, now: int): (days: int)
    ensures days * MS_PER_DAY <= expiration - now < days * MS_PER_DAY + MS_PER_DAY
  {
    (expiration - now) / MS_PER_DAY
  }

  /** The four values a status takes. */
  predicate IsStatus(status: string)
  {
    status == OVERDUE || status == EXPIRING_SOON || status == UP_TO_DATE || status == INVALID_DATE
  }

  /** The thresholds of determineDocumentStatus on a whole-day difference. */
  function ClassifyDays(days: int): (status: string)
    ensures status == OVERDUE <==> days < 0
    ensures status == EXPIRING_SOON <==> 0 <= days <= SOON_DAYS
    ensures status == UP_TO_DATE <==> days > SOON_DAYS
  {
    if days < 0 then OVERDUE
    else if days <= SOON_DAYS then EXPIRING_SOON
    else UP_TO_DATE
  }

  /**
   * The instant of the `Date` that parseDate builds from `expiration`, when
   * the string tokenises and that `Date` is valid.
   */
  function ExpirationInstant(expiration: string, dateOf: DateReader): (instant: Option<int>)
    ensures instant.None? <==>
      ParseDate(expiration).None? || dateOf(DateInput(ParseDate(expiration).value)).InvalidTime?
    ensures instant.Some? ==> dateOf(DateInput(ParseDate(expiration).value)) == Time(instant.value)
  {
    match ParseDate(expiration)
    case None => None
    case Some(t) =>
      match dateOf(DateInput(t))
      case Time(ms) => Some(ms)
      case InvalidTime => None
  }

  /**
   * determineDocumentStatus as written. A string with three non-empty
   * tokens always yields a `Date` object, even when that `Date` is
   * invalid; its time is then NaN, both comparisons with NaN are false, and
   * control falls through to 'Up-to-date'.
   */
  function DetermineDocumentStatusAsWritten(expiration: string, now: int, dateOf: DateReader): (status: string)
    ensures IsStatus(status)
    ensures status == INVALID_DATE <==> ParseDate(expiration).None?
    ensures ParseDate(expiration).Some? && dateOf(DateInput(ParseDate(expiration).value)).InvalidTime? ==>
      status == UP_TO_DATE
    ensures ExpirationInstant(expiration, dateOf).Some? ==>
      status == DetermineDocumentStatus(expiration, now, dateOf)
  {
    match ParseDate(expiration)
    case None => INVALID_DATE
    case Some(t) =>
      match dateOf(DateInput(t))
      case InvalidTime => UP_TO_DATE
      case Time(ms) => ClassifyDays(DaysUntil(ms, now))
  }

  /**
   * determineDocumentStatus with an Invalid Date classified as
   * 'Invalid Date': 'Overdue' before `now`, 'Expiring Soon' from `now` up to
   * the end of the thirtieth whole day, 'Up-to-date' after that.
   */
  function DetermineDocumentStatus(expiration: string, now: int, dateOf: DateReader): (status: string)
    ensures IsStatus(status)
    ensures status == INVALID_DATE <==> ExpirationInstant(expiration, dateOf).None?
    ensures ParseDate(expiration).None? ==> status == INVALID_DATE
    ensures ExpirationInstant(expiration, dateOf).Some? ==>
      var ms := ExpirationInstant(expiration, dateOf).value;
      && (status == OVERDUE <==> ms < now)
      && (status == EXPIRING_SOON <==> now <= ms < now + (SOON_DAYS + 1) * MS_PER_DAY)
      && (status == UP_TO_DATE <==> now + (SOON_DAYS + 1) * MS_PER_DAY <= ms)
  {
    match ExpirationInstant(expiration, dateOf)
    case None => INVALID_DATE
    case Some(ms) => ClassifyDays(DaysUntil(ms, now))
  }

  /** How close a status is to overdue: 2 for 'Overdue', 1 for 'Expiring Soon', else 0. */
  function Urgency(status: string): nat
  {
    if status == OVERDUE then 2 else if status == EXPIRING_SOON then 1 else 0
  }

  /** Whole-day differences grow with the distance from `now` to the expiration. */
  lemma DaysUntilMonotone(expiration1: int, now1: int, expiration2: int, now2: int)
    requires expiration1 - now1 <= expiration2 - now2
    ensures DaysUntil(expiration1, now1) <= DaysUntil(expiration2, now2)
  {
  }

  /**
   * Moving the expiration later, or `now` earlier, never moves a status
   * towards 'Overdue'.
   */
  lemma StatusMonotone(expiration1: string, now1: int, expiration2: string, now2: int, dateOf: DateReader)
    requires ExpirationInstant(expiration1, dateOf).Some? && ExpirationInstant(expiration2, dateOf).Some?
    requires ExpirationInstant(expiration1, dateOf).value - now1 <= ExpirationInstant(expiration2, dateOf).value - now2
    ensures Urgency(DetermineDocumentStatus(expiration2, now2, dateOf)) <= Urgency(DetermineDocumentStatus(expiration1, now1, dateOf))
  {
    var ms1, ms2 := ExpirationInstant(expiration1, dateOf).value, ExpirationInstant(expiration2, dateOf).value;
    DaysUntilMonotone(ms1, now1, ms2, now2);
  }

  /**
   * getStatusColor: the three live statuses get three distinct colours and
   * every other string, 'Invalid Date' among them, gets gray.
   */
  function StatusColor(status: string): (color: string)
    ensures color == RED <==> status == OVERDUE
    ensures color == YELLOW <==> status == EXPIRING_SOON
    ensures color == GREEN <==> status == UP_TO_DATE
    ensures color == GRAY <==> status != OVERDUE && status != EXPIRING_SOON && status != UP_TO_DATE
  {
    if status == OVERDUE then RED
    else if status == EXPIRING_SOON then YELLOW
    else if status == UP_TO_DATE then GREEN
    else GRAY
  }

  /** Two statuses with the same non-gray colour are the same status. */
  lemma StatusColorSeparatesLiveStatuses(status1: string, status2: string)
    requires StatusColor(status1) == StatusColor(status2) != GRAY
    ensures status1 == status2
  {
  }

  function Abs(x: int): nat
  {
    if x < 0 then -x else x
  }

  /** The "Days Until/Overdue" cell: 'N/A', a count of days, or 'NaN'. */
  datatype DayCell = NotApplicable | Days(count: nat) | NotANumber

  /**
   * The day-count cell: 'N/A' for an empty date, otherwise the absolute
   * floored day difference to the `Date` of the swapped string.
   */
  function DisplayedDayCount(expiration: string, now: int, dateOf: DateReader): (cell: DayCell)
    ensures cell == NotApplicable <==> expiration == ""
    ensures expiration != "" ==> (cell == NotANumber <==> dateOf(Swap(expiration)).InvalidTime?)
    ensures cell.Days? ==>
      && dateOf(Swap(expiration)).Time?
      && Abs(DaysUntil(dateOf(Swap(expiration)).ms, now)) == cell.count
  {
    if expiration == "" then NotApplicable
    else
      match dateOf(Swap(expiration))
      case InvalidTime => NotANumber
      case Time(ms) => Days(Abs(DaysUntil(ms, now)))
  }

  /**
   * For a `DD-MM-YYYY` date, the day cell and the corrected status read the
   * same `Date`: 'Invalid Date' shows 'NaN', and the sign the cell drops is
   * recovered from the status ('Overdue' means the count is days past, at
   * least one; otherwise days to go, at most 30 for 'Expiring Soon').
   */
  lemma DayCountAgreesWithStatus(expiration: string, now: int, dateOf: DateReader)
    requires ParseDate(expiration).Some? && SeparatorCount(expiration) == 2
    ensures var status := DetermineDocumentStatus(expiration, now, dateOf);
      var cell := DisplayedDayCount(expiration, now, dateOf);
      && (status == INVALID_DATE <==> cell == NotANumber)
      && (cell.Days? ==>
            var days: int := if status == OVERDUE then -(cell.count as int) else cell.count;
            && ExpirationInstant(expiration, dateOf).Some?
            && days == DaysUntil(ExpirationInstant(expiration, dateOf).value, now)
            && (status == OVERDUE ==> cell.count >= 1)
            && (status == EXPIRING_SOON ==> cell.count <= SOON_DAYS)
            && (status == UP_TO_DATE ==> cell.count > SOON_DAYS))
  {
    var t := ParseDate(expiration).value;
    ThreeTokenDate(expiration);
    SwapWrittenDate(t);
    assert Swap(expiration) == DateInput(t);
  }

  /**
   * The same agreement for the status the document list stores, the
   * as-written one: a `DD-MM-YYYY` date is never 'Invalid Date' there, a
   * 'NaN' cell sits beside 'Up-to-date', and a count carries the sign and
   * bounds its status implies.
   */
  lemma DayCountAgreesAsWritten(expiration: string, now: int, dateOf: DateReader)
    requires ParseDate(expiration).Some? && SeparatorCount(expiration) == 2
    ensures var status := DetermineDocumentStatusAsWritten(expiration, now, dateOf);
      var cell := DisplayedDayCount(expiration, now, dateOf);
      && status != INVALID_DATE
      && (cell == NotANumber <==> ExpirationInstant(expiration, dateOf).None?)
      && (cell == NotANumber ==> status == UP_TO_DATE)
      && (cell.Days? ==>
            var days: int := if status == OVERDUE then -(cell.count as int) else cell.count;
            && days == DaysUntil(ExpirationInstant(expiration, dateOf).value, now)
            && (status == OVERDUE ==> cell.count >= 1)
            && (status == EXPIRING_SOON ==> cell.count <= SOON_DAYS)
            && (status == UP_TO_DATE ==> cell.count > SOON_DAYS))
  {
    var t := ParseDate(expiration).value;
    ThreeTokenDate(expiration);
    SwapWrittenDate(t);
    assert Swap(expiration) == DateInput(t);
    DayCountAgreesWithStatus(expiration, now, dateOf);
  }

  /**
   * A string of three non-empty tokens whose `Date` is invalid (for
   * instance `aa-bb-cccc`) reads as 'Up-to-date' in the source, and as
   * 'Invalid Date' once corrected.
   */
  lemma AsWrittenInvalidDateReadsUpToDate(t: DateTokens, now: int, dateOf: DateReader)
    requires WellFormed(t) && dateOf(DateInput(t)) == InvalidTime
    ensures DetermineDocumentStatusAsWritten(Written(t), now, dateOf) == UP_TO_DATE
    ensures DetermineDocumentStatus(Written(t), now, dateOf) == INVALID_DATE
  {
    ShapeParses(Written(t), t);
  }

  /** The concrete `aa-bb-cccc` instance of the as-written fall-through. */
  lemma GarbageDateExample(now: int, dateOf: DateReader)
    requires dateOf("cccc-bb-aa") == InvalidTime
    ensures DetermineDocumentStatusAsWritten("aa-bb-cccc", now, dateOf) == UP_TO_DATE
  {
    var t := DateTokens("aa", "bb", "cccc");
    assert WellFormed(t);
    assert DateInput(t) == "cccc-bb-aa";
    AsWrittenInvalidDateReadsUpToDate(t, now, dateOf);
    assert Written(t) == "aa-bb-cccc";
  }
}
