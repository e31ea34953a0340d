/**
 * The due-date engine: the next review falls a whole number of months
 * (`int(Review_Frequency_Years * 12)`) after the last one, and the project's
 * status follows from how many days remain until then.
 */
module DueDates {
  import opened Wrappers
  import opened Text
  import opened Calendar
  import opened Records
  import opened RecordStore

  datatype DueStatus = Overdue | DueSoon | UpToDate

  /** The word written into the `Status` column. */
  function StatusName(s: DueStatus): (n: string)
    ensures n == Records.Overdue || n == Records.DueSoon || n == Records.UpToDate
  {
    match s
    case Overdue => Records.Overdue
    case DueSoon => Records.DueSoon
    case UpToDate => Records.UpToDate
  }

  lemma StatusNameInjective(a: DueStatus, b: DueStatus)
    ensures StatusName(a) == StatusName(b) <==> a == b
  {
    assert Records.Overdue != Records.DueSoon by { assert Records.Overdue[0] != Records.DueSoon[0]; }
    assert Records.Overdue != Records.UpToDate by { assert Records.Overdue[0] != Records.UpToDate[0]; }
    assert Records.DueSoon != Records.UpToDate by { assert Records.DueSoon[0] != Records.UpToDate[0]; }
  }

  /** The status for a review `days` days away: past, within 30 days, or later. */
  function StatusFor(days: int): (s: DueStatus)
    ensures s == Overdue <==> days < 0
    ensures s == DueSoon <==> 0 <= days <= 30
    ensures s == UpToDate <==> 30 < days
  {
    if days < 0 then Overdue else if days <= 30 then DueSoon else UpToDate
  }

  function Urgency(s: DueStatus): nat
  {
    match s
    case Overdue => 2
    case DueSoon => 1
    case UpToDate => 0
  }

  /** A review further away is never more urgent. */
  lemma StatusMonotone(d1: int, d2: int)
    requires d1 <= d2
    ensures Urgency(StatusFor(d2)) <= Urgency(StatusFor(d1))
  {
  }

  function Pow10(n: nat): (p: nat)
    ensures p >= 1
  {
    if n == 0 then 1 else 10 * Pow10(n - 1)
  }

  /**
   * `int(x * 12)` for the number `x` that `float` read: twelve times the value,
   * truncated toward zero. Infinity and NaN make `int` raise.
   */
  function MonthsOf(x: Number): (r: Option<int>)
    ensures r.Some? <==> x.Finite?
  {
    match x
    case Finite(negative, m, e) =>
      var magnitude := if e >= 0 then 12 * m * Pow10(e) else (12 * m) / Pow10(-e);
      Some(if negative then -magnitude else magnitude)
    case _ => None
  }

  /**
   * The months are the whole part of twelve times the frequency: for
   * `x = m * 10^e` with `e < 0`, `r * 10^-e <= 12 * m < (r + 1) * 10^-e`, and a
   * negative frequency gives the negated count (truncation toward zero).
   */
  lemma MonthsOfTruncates(m: nat, e: int)
    requires e < 0
    ensures MonthsOf(Finite(false, m, e)).Some?
    ensures MonthsOf(Finite(false, m, e)).value * Pow10(-e) <= 12 * m < (MonthsOf(Finite(false, m, e)).value + 1) * Pow10(-e)
    ensures MonthsOf(Finite(true, m, e)) == Some(-MonthsOf(Finite(false, m, e)).value)
  {
    var d := Pow10(-e);
    var q := (12 * m) / d;
    assert MonthsOf(Finite(false, m, e)) == Some(q);
    DivBounds(12 * m, d);
  }

  lemma DivBounds(n: nat, d: nat)
    requires d > 0
    ensures (n / d) * d <= n < (n / d + 1) * d
  {
    var q, r := n / d, n % d;
    assert n == q * d + r;
    assert (q + 1) * d == q * d + d;
  }

  /** A frequency of `0.5` years is six months. */
  lemma HalfYearIsSixMonths(s: string)
    requires s == "0.5"
    ensures ParseFloat(s).Some? && MonthsOf(ParseFloat(s).value) == Some(6)
  {
    ParseFloatHalf(s);
    assert Pow10(1) == 10;
  }

  datatype DueError = BadLastReviewDate | BadFrequency | OutOfRange | BadCurrentDate

  /** `base + relativedelta(months=int(x * 12))`. */
  function NextReviewAfter(base: Date, x: Number): (r: Result<Date, DueError>)
    requires WellFormed(base)
    ensures r.Ok? <==> MonthsOf(x).Some? && AddMonths(base, MonthsOf(x).value).Some?
    ensures r.Ok? ==> r.value == AddMonths(base, MonthsOf(x).value).value
    ensures r.Err? ==> r.error == (if MonthsOf(x).None? then BadFrequency else OutOfRange)
  {
    match MonthsOf(x)
    case None => Err(BadFrequency)
    case Some(k) =>
      match AddMonths(base, k)
      case None => Err(OutOfRange)
      case Some(d) => Ok(d)
  }

  /** The status of a review due on `next`, seen on the day `today`. */
  function DateStatus(next: Date, today: Date): DueStatus
  {
    StatusFor(DaysBetween(today, next))
  }

  /**
   * `calculate_due_date(project, today)`: reads `Last_Review_Date` and
   * `Review_Frequency_Years` in that order (either may raise), then returns a
   * copy that differs only in `Next_Review_Date` and `Status`.
   */
  function CalculateDueDate(p: Project, today: Date): (r: Result<Project, DueError>)
    ensures r.Ok? ==> r.value == p.(nextReviewDate := r.value.nextReviewDate, status := r.value.status)
    ensures r.Ok? ==> ParseDate(p.lastReviewDate).Some? && ParseFloat(p.frequencyYears).Some?
  {
    match ParseDate(p.lastReviewDate)
    case None => Err(BadLastReviewDate)
    case Some(last) =>
      match ParseFloat(p.frequencyYears)
      case None => Err(BadFrequency)
      case Some(x) =>
        match NextReviewAfter(last, x)
        case Err(e) => Err(e)
        case Ok(next) =>
          Ok(p.(nextReviewDate := FormatDate(next), status := StatusName(DateStatus(next, today))))
  }

  /**
   * On success the written `Next_Review_Date` reads back as the last review date
   * moved by the frequency's whole months, the status agrees with the 0/30-day
   * thresholds for that date, and the review is never before the last one when
   * the frequency is not negative.
   */
  lemma CalculateDueDateSpec(p: Project, today: Date)
    requires CalculateDueDate(p, today).Ok?
    ensures var q := CalculateDueDate(p, today).value;
      var last := ParseDate(p.lastReviewDate).value;
      var k := MonthsOf(ParseFloat(p.frequencyYears).value).value;
      && AddMonths(last, k).Some?
      && ParseDate(q.nextReviewDate) == AddMonths(last, k)
      && q.status == StatusName(StatusFor(DaysBetween(today, AddMonths(last, k).value)))
      && (k > 0 ==> DayNumber(last) < DayNumber(AddMonths(last, k).value))
  {
    var last := ParseDate(p.lastReviewDate).value;
    var k := MonthsOf(ParseFloat(p.frequencyYears).value).value;
    var next := AddMonths(last, k).value;
    ParseFormatDate(next);
    if k > 0 {
      AddMonthsLater(last, k);
    }
  }

  /** Which step fails first decides the error, in the order the source performs them. */
  lemma CalculateDueDateErrors(p: Project, today: Date)
    ensures ParseDate(p.lastReviewDate).None? ==> CalculateDueDate(p, today) == Err(BadLastReviewDate)
    ensures ParseDate(p.lastReviewDate).Some? && ParseFloat(p.frequencyYears).None?
      ==> CalculateDueDate(p, today) == Err(BadFrequency)
    ensures ParseDate(p.lastReviewDate).Some? && ParseFloat(p.frequencyYears).Some?
      && MonthsOf(ParseFloat(p.frequencyYears).value).None?
      ==> CalculateDueDate(p, today) == Err(BadFrequency)
  {
  }

  /** Recomputing with the same reference date changes nothing. */
  lemma CalculateDueDateIdempotent(p: Project, today: Date)
    requires CalculateDueDate(p, today).Ok?
    ensures CalculateDueDate(CalculateDueDate(p, today).value, today) == CalculateDueDate(p, today)
  {
    var q := CalculateDueDate(p, today).value;
    assert q.lastReviewDate == p.lastReviewDate && q.frequencyYears == p.frequencyYears;
  }

  /** A project last reviewed on 2025-01-01 every half year is due on 2025-07-01, "Due Soon" on 2025-06-01. */
  lemma HalfYearExample(p: Project)
    requires p.lastReviewDate == "2025-01-01" && p.frequencyYears == "0.5"
    ensures CalculateDueDate(p, Date(2025, 6, 1))
      == Ok(p.(nextReviewDate := "2025-07-01", status := "Due Soon"))
  {
    HalfYearDates();
    HalfYearIsSixMonths(p.frequencyYears);
  }

  // ----- every project -----

  /** `calculate_due_date` with the reference date fixed, as a function value. */
  function DueFn(today: Date): Project -> Result<Project, DueError>
  {
    p => CalculateDueDate(p, today)
  }

  /** `calculate_due_date` over a project list, stopping at the first project that raises. */
  function DueAll(ps: seq<Project>, today: Date): Result<seq<Project>, DueError>
  {
    MapAll(DueFn(today), ps)
  }

  /** The list succeeds exactly when every project does, and then holds each project's result. */
  lemma DueAllSpec(ps: seq<Project>, today: Date)
    ensures DueAll(ps, today).Ok? <==> forall i :: 0 <= i < |ps| ==> CalculateDueDate(ps[i], today).Ok?
    ensures DueAll(ps, today).Ok? ==> |DueAll(ps, today).value| == |ps|
    ensures DueAll(ps, today).Ok? ==>
      forall i :: 0 <= i < |ps| ==> DueAll(ps, today).value[i] == CalculateDueDate(ps[i], today).value
  {
    MapAllSpec(DueFn(today), ps);
  }

  /** Recomputing the whole list with the same reference date gives the same list. */
  lemma DueAllIdempotent(ps: seq<Project>, today: Date)
    requires DueAll(ps, today).Ok?
    ensures DueAll(DueAll(ps, today).value, today) == DueAll(ps, today)
  {
    var qs := DueAll(ps, today).value;
    DueAllSpec(ps, today);
    forall i | 0 <= i < |qs| ensures CalculateDueDate(qs[i], today) == Ok(qs[i]) {
      CalculateDueDateIdempotent(ps[i], today);
    }
    DueAllSpec(qs, today);
    assert DueAll(qs, today).value == qs;
  }

  /** How many projects carry the given status word. */
  function CountStatus(ps: seq<Project>, name: string): (n: nat)
    ensures n <= |ps|
  {
    if ps == [] then 0
    else CountStatus(ps[..|ps| - 1], name) + (if ps[|ps| - 1].status == name then 1 else 0)
  }

  lemma {:induction false} CountsCoverAll(ps: seq<Project>)
    requires forall i :: 0 <= i < |ps| ==>
      ps[i].status == Records.Overdue || ps[i].status == Records.DueSoon || ps[i].status == Records.UpToDate
    ensures CountStatus(ps, Records.Overdue) + CountStatus(ps, Records.DueSoon) + CountStatus(ps, Records.UpToDate) == |ps|
  {
    if ps != [] {
      CountsCoverAll(ps[..|ps| - 1]);
      StatusNameInjective(Overdue, DueSoon);
      StatusNameInjective(Overdue, UpToDate);
      StatusNameInjective(DueSoon, UpToDate);
    }
  }

  datatype StatusCounts = StatusCounts(overdue: nat, dueSoon: nat, upToDate: nat, total: nat)

  function Counts(ps: seq<Project>): StatusCounts
  {
    StatusCounts(CountStatus(ps, Records.Overdue), CountStatus(ps, Records.DueSoon), CountStatus(ps, Records.UpToDate), |ps|)
  }

  /** After a successful recompute the three counts add up to the number of projects. */
  lemma DueAllCounts(ps: seq<Project>, today: Date)
    requires DueAll(ps, today).Ok?
    ensures var c := Counts(DueAll(ps, today).value);
      c.overdue + c.dueSoon + c.upToDate == c.total == |ps|
  {
    var qs := DueAll(ps, today).value;
    DueAllSpec(ps, today);
    forall i | 0 <= i < |qs|
      ensures qs[i].status == Records.Overdue || qs[i].status == Records.DueSoon || qs[i].status == Records.UpToDate
    {
      var p := ps[i];
      var last := ParseDate(p.lastReviewDate).value;
      var next := NextReviewAfter(last, ParseFloat(p.frequencyYears).value).value;
      assert qs[i].status == StatusName(DateStatus(next, today));
    }
    CountsCoverAll(qs);
  }

  /**
   * `calculate_all_reviews(projects_file, current_date)`: parses the reference
   * date, recomputes every project in place, writes the list back and counts
   * the statuses. When a project raises, the loop stops and nothing is written.
   */
  method CalculateAllReviews(store: Store, currentDate: string) returns (r: Result<StatusCounts, DueError>)
    modifies store
    ensures store.reviews == old(store.reviews)
    ensures ParseDate(currentDate).None? ==> r == Err(BadCurrentDate) && store.projects == old(store.projects)
    ensures ParseDate(currentDate).Some? ==>
      var result := DueAll(old(store.projects), ParseDate(currentDate).value);
      && (result.Err? ==> r == Err(result.error) && store.projects == old(store.projects))
      && (result.Ok? ==> store.projects == result.value && r == Ok(Counts(result.value)))
  {
    var parsed := ParseDate(currentDate);
    if parsed.None? {
      return Err(BadCurrentDate);
    }
    var today := parsed.value;
    var ps := store.projects;
    var rows := new Project[|ps|](i requires 0 <= i < |ps| => ps[i]);
    assert rows[..] == ps;
    var err := UpdateEach(DueFn(today), rows);
    if err.Some? {
      return Err(err.value);
    }
    store.WriteProjects(rows[..]);
    DueAllCounts(ps, today);
    r := Ok(Counts(rows[..]));
  }

  // ----- a reference instant with a time of day -----

  /** Microseconds in a day. */
  const DayMicros: nat := 86_400_000_000

  /** A `datetime`: a calendar day and the microseconds elapsed since its midnight. */
  datatype Instant = Instant(date: Date, micros: nat)

  predicate ValidInstant(t: Instant) { t.micros < DayMicros }

  /**
   * `(next_review - current_date).days` when `current_date` is a full
   * `datetime` such as the `datetime.now()` default: the whole days of the
   * difference, rounded down as `timedelta` normalises a negative remainder.
   */
  function DaysUntilAt(next: Date, now: Instant): int
  {
    (DayNumber(next) * DayMicros - (DayNumber(now.date) * DayMicros + now.micros)) / DayMicros
  }

  /** The status as written: the thresholds applied to `DaysUntilAt`. */
  function StatusAt(next: Date, now: Instant): DueStatus
  {
    StatusFor(DaysUntilAt(next, now))
  }

  /** Any time after midnight takes one day off the distance to the review. */
  lemma DaysUntilAtDrop(next: Date, now: Instant)
    requires ValidInstant(now)
    ensures DaysUntilAt(next, now) == DaysBetween(now.date, next) - (if now.micros > 0 then 1 else 0)
  {
    var n := DaysBetween(now.date, next);
    var diff := DayNumber(next) * DayMicros - (DayNumber(now.date) * DayMicros + now.micros);
    assert diff == DayMicros * n - now.micros;
    if now.micros > 0 {
      DivUnique(diff, DayMicros, n - 1, DayMicros - now.micros);
    } else {
      DivUnique(diff, DayMicros, n, 0);
    }
  }

  /**
   * As written, a review due today is already "Overdue" at any moment after
   * midnight of its day, and one 31 days away is already "Due Soon".
   */
  lemma DueTodayOverdueAfterMidnight(next: Date, now: Instant)
    requires ValidInstant(now) && now.micros > 0
    ensures now.date == next ==> StatusAt(next, now) == Overdue
    ensures DaysBetween(now.date, next) == 31 ==> StatusAt(next, now) == DueSoon
  {
    DaysUntilAtDrop(next, now);
  }

  /**
   * The intended rule compares calendar days, as `DateStatus` does (and as the
   * string reference date, read at midnight, already does): at midnight the
   * instant rule agrees with it, and a review due today is "Due Soon".
   */
  lemma StatusAtMidnight(next: Date, now: Instant)
    requires now.micros == 0
    ensures StatusAt(next, now) == DateStatus(next, now.date)
    ensures now.date == next ==> DateStatus(next, now.date) == DueSoon
  {
    DaysUntilAtDrop(next, now);
  }
}
