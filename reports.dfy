/**
 * The record-selection part of the reports: which reviews go into the monthly
 * schedule and in what order, the per-reviewer workload table, and the subject
 * line of a review notification. Writing the CSV file and drawing the chart
 * are not modelled.
 */
module Reports {
  import opened Wrappers
  import opened Text
  import opened Calendar
  import opened Records
  import opened Sorting
  import opened RecordStore

  // ----- Selection that may raise -----

  /**
   * A list comprehension whose test can raise: `test` answers keep/drop, or
   * `None` where it raises, and the first element that raises aborts the scan.
   */
  function Select<T>(s: seq<T>, test: T -> Option<bool>): Result<seq<T>, T>
    decreases |s|
  {
    if s == [] then Ok([])
    else
      var x := s[|s| - 1];
      match Select(s[..|s| - 1], test)
      case Err(e) => Err(e)
      case Ok(kept) =>
        match test(x)
        case None => Err(x)
        case Some(keep) => Ok(if keep then kept + [x] else kept)
  }

  function Keeps<T>(test: T -> Option<bool>): T -> bool
  {
    x => test(x) == Some(true)
  }

  /** The scan succeeds exactly when no element raises, and then it keeps the elements the test accepts, in order. */
  lemma {:induction false} SelectOk<T>(s: seq<T>, test: T -> Option<bool>)
    ensures Select(s, test).Ok? <==> forall i :: 0 <= i < |s| ==> test(s[i]).Some?
    ensures Select(s, test).Ok? ==> Select(s, test).value == Filter(s, Keeps(test))
    decreases |s|
  {
    if s != [] {
      var n := |s| - 1;
      var x := s[n];
      SelectOk(s[..n], test);
      assert s == s[..n] + [x];
      if Select(s[..n], test).Ok? && test(x).Some? {
        FilterAppend(s[..n], [x], Keeps(test));
      }
    }
  }

  /** A failed scan reports the first element that raises. */
  lemma {:induction false} SelectErr<T>(s: seq<T>, test: T -> Option<bool>) returns (i: nat)
    requires Select(s, test).Err?
    ensures i < |s| && s[i] == Select(s, test).error && test(s[i]).None?
    ensures forall j :: 0 <= j < i ==> test(s[j]).Some?
    decreases |s|
  {
    var n := |s| - 1;
    if Select(s[..n], test).Err? {
      i := SelectErr(s[..n], test);
    } else {
      SelectOk(s[..n], test);
      i := n;
    }
  }

  // ----- Monthly schedule -----

  /** A row of the monthly schedule: a review with its project's and reviewer's names. */
  datatype Entry = Entry(
    reviewId: string,
    projectId: string,
    projectName: string,
    reviewerId: string,
    reviewerName: string,
    scheduledDate: string,
    status: string)

  /** The name of the first project with the id, `Unknown` when there is none. */
  function ProjectName(projects: seq<Project>, id: string): (r: string)
    ensures (forall i :: 0 <= i < |projects| ==> projects[i].id != id) ==> r == "Unknown"
    ensures forall i ::
      (0 <= i < |projects| && projects[i].id == id && (forall j :: 0 <= j < i ==> projects[j].id != id) ==> r == projects[i].name)
  {
    if projects == [] then "Unknown"
    else if projects[0].id == id then projects[0].name
    else
      var r := ProjectName(projects[1..], id);
      assert forall i :: 1 <= i < |projects| ==> projects[i] == projects[1..][i - 1];
      r
  }

  /** The name of the first user with the id (`get_reviewer`), `Unknown` when there is none. */
  function ReviewerName(users: seq<User>, id: string): (r: string)
    ensures IndexOfId(users, id).None? ==> r == "Unknown"
    ensures IndexOfId(users, id).Some? ==> r == users[IndexOfId(users, id).value].name
  {
    match IndexOfId(users, id)
    case None => "Unknown"
    case Some(i) => users[i].name
  }

  function Enrich(r: Review, projects: seq<Project>, users: seq<User>): Entry
  {
    Entry(r.id, r.projectId, ProjectName(projects, r.projectId), r.reviewerId,
          ReviewerName(users, r.reviewerId), r.scheduledDate, r.status)
  }

  function EnrichAll(rs: seq<Review>, projects: seq<Project>, users: seq<User>): (es: seq<Entry>)
    ensures |es| == |rs|
    ensures forall i :: 0 <= i < |rs| ==> es[i] == Enrich(rs[i], projects, users)
  {
    seq(|rs|, i requires 0 <= i < |rs| => Enrich(rs[i], projects, users))
  }

  /**
   * `strftime('%m') == month and strftime('%Y') == year`: the month is two
   * digits and the year four, both zero padded, as `FormatDate` writes them.
   */
  predicate InMonth(d: Date, month: string, year: string)
    requires ValidDate(d)
  {
    Pad2(d.month) == month && Pad4(d.year) == year
  }

  /**
   * Whether a review goes into the schedule: only `Scheduled` and
   * `In Progress` reviews are looked at, and their `Scheduled_Date` is then
   * parsed, which raises (`None`) when it is not a `YYYY-MM-DD` date.
   */
  function MonthTest(month: string, year: string): Review -> Option<bool>
  {
    (r: Review) =>
      if !IsActive(r) then Some(false)
      else match ParseDate(r.scheduledDate)
        case None => None
        case Some(d) => Some(InMonth(d, month, year))
  }

  /** The reviews a month's schedule is built from. */
  predicate Wanted(r: Review, month: string, year: string)
  {
    IsActive(r) && ParseDate(r.scheduledDate).Some? && InMonth(ParseDate(r.scheduledDate).value, month, year)
  }

  lemma MonthTestKeeps(month: string, year: string, r: Review)
    ensures Keeps(MonthTest(month, year))(r) == Wanted(r, month, year)
    ensures MonthTest(month, year)(r).None? <==> IsActive(r) && ParseDate(r.scheduledDate).None?
  {
  }

  /** The result of `generate_monthly_schedule`. */
  datatype MonthlyReport = MonthlyReport(
    file: string,
    month: string,
    year: string,
    reviewCount: nat,
    entries: seq<Entry>)

  function DateKey(e: Entry): string { e.scheduledDate }

  /** The default file name `monthly_schedule_{month}-{year}.csv`. */
  function ScheduleFile(outputFile: Option<string>, month: string, year: string): string
  {
    match outputFile
    case Some(f) => f
    case None => "monthly_schedule_" + month + "-" + year + ".csv"
  }

  /**
   * `generate_monthly_schedule(month, year)` over the reviews, projects and
   * users read from the files, with the schedule file written in the five
   * listed columns only; `Err(r)` where review `r` makes `strptime` raise.
   * `MonthlyScheduleAsWritten` is the code as it stands.
   */
  function MonthlySchedule(reviews: seq<Review>, projects: seq<Project>, users: seq<User>,
                           month: string, year: string, outputFile: Option<string>): Result<MonthlyReport, Review>
  {
    match Select(reviews, MonthTest(month, year))
    case Err(r) => Err(r)
    case Ok(kept) =>
      var entries := SortBy(EnrichAll(kept, projects, users), DateKey, StrLe);
      Ok(MonthlyReport(ScheduleFile(outputFile, month, year), month, year, |entries|, entries))
  }

  lemma StrLeOrder()
    ensures TotalPreorder(StrLe)
  {
    forall a, b ensures StrLe(a, b) || StrLe(b, a) {
      StrLeTotal(a, b);
    }
    forall a, b, c | StrLe(a, b) && StrLe(b, c) ensures StrLe(a, c) {
      StrLeTransitive(a, b, c);
    }
  }

  /** The reviews kept for the month. */
  function Kept(reviews: seq<Review>, month: string, year: string): (kept: seq<Review>)
    ensures forall r :: r in kept <==> r in reviews && Wanted(r, month, year)
  {
    var kept := Filter(reviews, Keeps(MonthTest(month, year)));
    forall r ensures Keeps(MonthTest(month, year))(r) == Wanted(r, month, year) {
      MonthTestKeeps(month, year, r);
    }
    kept
  }

  predicate Raises(r: Review)
  {
    IsActive(r) && ParseDate(r.scheduledDate).None?
  }

  /**
   * The report fails only on an active review whose date does not parse, and
   * then on the first such review.
   */
  lemma MonthlyScheduleFails(reviews: seq<Review>, projects: seq<Project>, users: seq<User>,
                             month: string, year: string, outputFile: Option<string>)
    ensures MonthlySchedule(reviews, projects, users, month, year, outputFile).Ok?
      <==> forall i :: 0 <= i < |reviews| ==> !Raises(reviews[i])
    ensures MonthlySchedule(reviews, projects, users, month, year, outputFile).Err? ==>
      exists i :: (0 <= i < |reviews| && reviews[i] == MonthlySchedule(reviews, projects, users, month, year, outputFile).error
        && Raises(reviews[i]) && forall j :: 0 <= j < i ==> !Raises(reviews[j]))
  {
    var test := MonthTest(month, year);
    SelectOk(reviews, test);
    forall i | 0 <= i < |reviews| ensures test(reviews[i]).None? <==> Raises(reviews[i]) {
      MonthTestKeeps(month, year, reviews[i]);
    }
    if Select(reviews, test).Err? {
      var i := SelectErr(reviews, test);
    }
  }

  /**
   * On success the schedule holds exactly the wanted reviews (active, dated in
   * the given month and year), each enriched once, sorted by `Scheduled_Date`,
   * and its `review_count` is their number.
   */
  lemma MonthlyScheduleSpec(reviews: seq<Review>, projects: seq<Project>, users: seq<User>,
                            month: string, year: string, outputFile: Option<string>)
    requires MonthlySchedule(reviews, projects, users, month, year, outputFile).Ok?
    ensures var report := MonthlySchedule(reviews, projects, users, month, year, outputFile).value;
      var kept := Kept(reviews, month, year);
      && multiset(report.entries) == multiset(EnrichAll(kept, projects, users))
      && report.reviewCount == |kept|
      && SortedBy(report.entries, DateKey, StrLe)
  {
    SelectOk(reviews, MonthTest(month, year));
    StrLeOrder();
    SortBySorted(EnrichAll(Kept(reviews, month, year), projects, users), DateKey, StrLe);
  }

  /** Reviews scheduled on the same date keep the order they have in the reviews file. */
  lemma MonthlyScheduleStable(reviews: seq<Review>, projects: seq<Project>, users: seq<User>,
                              month: string, year: string, outputFile: Option<string>, date: string)
    requires MonthlySchedule(reviews, projects, users, month, year, outputFile).Ok?
    ensures WithKey(MonthlySchedule(reviews, projects, users, month, year, outputFile).value.entries, DateKey, date)
        == WithKey(EnrichAll(Kept(reviews, month, year), projects, users), DateKey, date)
  {
    SelectOk(reviews, MonthTest(month, year));
    forall a ensures StrLe(a, a) {
      StrLeTotal(a, a);
    }
    SortByStable(EnrichAll(Kept(reviews, month, year), projects, users), DateKey, StrLe, date);
  }

  // ----- Writing the schedule -----

  /** A row as `csv.DictWriter.writerow` receives it. */
  type CsvDict = map<string, string>

  /** The dictionary built for an entry: all seven keys of the enriched review. */
  function EntryRow(e: Entry): CsvDict
  {
    map["Review_ID" := e.reviewId, "Project_ID" := e.projectId, "Project_Name" := e.projectName,
        "Reviewer_ID" := e.reviewerId, "Reviewer_Name" := e.reviewerName,
        "Scheduled_Date" := e.scheduledDate, "Status" := e.status]
  }

  function EntryRows(es: seq<Entry>): (rows: seq<CsvDict>)
    ensures |rows| == |es|
    ensures forall i :: 0 <= i < |es| ==> rows[i] == EntryRow(es[i])
  {
    seq(|es|, i requires 0 <= i < |es| => EntryRow(es[i]))
  }

  /** The `fieldnames` the schedule is written with. */
  const ScheduleFields: seq<string> := ["Project_ID", "Project_Name", "Reviewer_Name", "Scheduled_Date", "Status"]

  /** The keys of a row that `fieldnames` does not list. */
  function ExtraKeys(row: CsvDict, fieldnames: seq<string>): (extra: set<string>)
    ensures forall k :: k in extra <==> k in row && k !in fieldnames
  {
    set k | k in row && k !in fieldnames
  }

  /**
   * `writer.writerows(rows)` with the default `extrasaction='raise'`: the
   * position of the first row holding a key outside `fieldnames`, whose
   * `writerow` raises `ValueError`; `None` when every row is written.
   */
  function FirstWrongRow(rows: seq<CsvDict>, fieldnames: seq<string>): (r: Option<nat>)
    ensures r.None? <==> forall i :: 0 <= i < |rows| ==> ExtraKeys(rows[i], fieldnames) == {}
    ensures r.Some? ==> r.value < |rows| && ExtraKeys(rows[r.value], fieldnames) != {}
    ensures r.Some? ==> forall j :: 0 <= j < r.value ==> ExtraKeys(rows[j], fieldnames) == {}
  {
    if rows == [] then None
    else if ExtraKeys(rows[0], fieldnames) != {} then Some(0)
    else
      var rest := FirstWrongRow(rows[1..], fieldnames);
      assert forall i :: 1 <= i < |rows| ==> rows[i] == rows[1..][i - 1];
      match rest
      case None => None
      case Some(i) => Some(i + 1)
  }

  /** Every entry's dictionary holds exactly the two keys the schedule's fieldnames leave out. */
  lemma EntryRowExtra(e: Entry)
    ensures ExtraKeys(EntryRow(e), ScheduleFields) == {"Review_ID", "Reviewer_ID"}
  {
  }

  /** Why `generate_monthly_schedule` fails. */
  datatype ScheduleFault =
    | UnreadableDate(review: Review)
    | FieldsNotListed(fields: set<string>)

  /**
   * `generate_monthly_schedule` as written: a non-empty schedule goes to
   * `write_csv`, whose `DictWriter` refuses the `Review_ID` and `Reviewer_ID`
   * keys that the five fieldnames leave out.
   */
  function MonthlyScheduleAsWritten(reviews: seq<Review>, projects: seq<Project>, users: seq<User>,
                                    month: string, year: string, outputFile: Option<string>): Result<MonthlyReport, ScheduleFault>
  {
    match MonthlySchedule(reviews, projects, users, month, year, outputFile)
    case Err(r) => Err(UnreadableDate(r))
    case Ok(report) =>
      if report.entries == [] then Ok(report)
      else
        var rows := EntryRows(report.entries);
        match FirstWrongRow(rows, ScheduleFields)
        case Some(i) => Err(FieldsNotListed(ExtraKeys(rows[i], ScheduleFields)))
        case None => Ok(report)
  }

  /**
   * As written, a schedule is returned only when it is empty: once a review is
   * kept, writing its row raises `ValueError` for `Review_ID` and `Reviewer_ID`.
   */
  lemma MonthlyScheduleAsWrittenRaises(reviews: seq<Review>, projects: seq<Project>, users: seq<User>,
                                       month: string, year: string, outputFile: Option<string>)
    ensures MonthlySchedule(reviews, projects, users, month, year, outputFile).Err? ==>
      MonthlyScheduleAsWritten(reviews, projects, users, month, year, outputFile)
        == Err(UnreadableDate(MonthlySchedule(reviews, projects, users, month, year, outputFile).error))
    ensures MonthlySchedule(reviews, projects, users, month, year, outputFile).Ok? && Kept(reviews, month, year) != [] ==>
      MonthlyScheduleAsWritten(reviews, projects, users, month, year, outputFile)
        == Err(FieldsNotListed({"Review_ID", "Reviewer_ID"}))
    ensures MonthlyScheduleAsWritten(reviews, projects, users, month, year, outputFile).Ok?
      <==> MonthlySchedule(reviews, projects, users, month, year, outputFile).Ok? && Kept(reviews, month, year) == []
    ensures MonthlyScheduleAsWritten(reviews, projects, users, month, year, outputFile).Ok? ==>
      MonthlySchedule(reviews, projects, users, month, year, outputFile)
        == Ok(MonthlyScheduleAsWritten(reviews, projects, users, month, year, outputFile).value)
        && MonthlyScheduleAsWritten(reviews, projects, users, month, year, outputFile).value.reviewCount == 0
  {
    var c := MonthlySchedule(reviews, projects, users, month, year, outputFile);
    if c.Ok? {
      MonthlyScheduleSpec(reviews, projects, users, month, year, outputFile);
      var entries := c.value.entries;
      if entries != [] {
        var rows := EntryRows(entries);
        EntryRowExtra(entries[0]);
        var i := FirstWrongRow(rows, ScheduleFields).value;
        EntryRowExtra(entries[i]);
      }
    }
  }

  /**
   * One `Scheduled` review dated 2025-05-10, and the schedule for May 2025:
   * the review is kept, and writing it raises.
   */
  lemma OneReviewRaises()
    ensures MonthlySchedule([Review("R1", "P1", "U1", "2025-05-10", Scheduled, "")], [], [], "05", "2025", None).Ok?
    ensures MonthlySchedule([Review("R1", "P1", "U1", "2025-05-10", Scheduled, "")], [], [], "05", "2025", None).value.reviewCount == 1
    ensures MonthlyScheduleAsWritten([Review("R1", "P1", "U1", "2025-05-10", Scheduled, "")], [], [], "05", "2025", None)
      == Err(FieldsNotListed({"Review_ID", "Reviewer_ID"}))
  {
    var r := Review("R1", "P1", "U1", "2025-05-10", Scheduled, "");
    var d := Date(2025, 5, 10);
    ParseFormatDate(d);
    assert FormatDate(d) == "2025-05-10";
    assert InMonth(d, "05", "2025");
    assert Wanted(r, "05", "2025");
    assert Kept([r], "05", "2025") != [];
    MonthlyScheduleFails([r], [], [], "05", "2025", None);
    MonthlyScheduleSpec([r], [], [], "05", "2025", None);
    MonthlyScheduleAsWrittenRaises([r], [], [], "05", "2025", None);
  }

  /**
   * `generate_monthly_schedule`: one pass appending the enriched wanted
   * reviews, the sort by `Scheduled_Date`, then `write_csv` for a non-empty
   * schedule.
   */
  method GenerateMonthlySchedule(reviews: seq<Review>, projects: seq<Project>, users: seq<User>,
                                 month: string, year: string, outputFile: Option<string>)
    returns (r: Result<MonthlyReport, ScheduleFault>)
    ensures r == MonthlyScheduleAsWritten(reviews, projects, users, month, year, outputFile)
  {
    var test := MonthTest(month, year);
    ghost var kept: seq<Review> := [];
    var enriched: seq<Entry> := [];
    for i := 0 to |reviews|
      invariant Select(reviews[..i], test) == Ok(kept)
      invariant enriched == EnrichAll(kept, projects, users)
    {
      assert reviews[..i + 1][..i] == reviews[..i];
      var review := reviews[i];
      if !IsActive(review) {
        continue;
      }
      var date := ParseDate(review.scheduledDate);
      if date.None? {
        MonthlyErr(reviews, i, test, kept);
        return Err(UnreadableDate(review));
      }
      if InMonth(date.value, month, year) {
        kept := kept + [review];
        enriched := enriched + [Enrich(review, projects, users)];
      }
    }
    assert reviews[..|reviews|] == reviews;
    enriched := SortBy(enriched, DateKey, StrLe);
    var file := match outputFile case Some(f) => f case None => "monthly_schedule_" + month + "-" + year + ".csv";
    if enriched != [] {
      var rows := EntryRows(enriched);
      var wrong := FirstWrongRow(rows, ScheduleFields);
      if wrong.Some? {
        return Err(FieldsNotListed(ExtraKeys(rows[wrong.value], ScheduleFields)));
      }
    }
    r := Ok(MonthlyReport(file, month, year, |enriched|, enriched));
  }

  /** A scan that raises at position `i` raises for the whole list. */
  lemma {:induction false} MonthlyErr(reviews: seq<Review>, i: nat, test: Review -> Option<bool>, kept: seq<Review>)
    requires i < |reviews| && Select(reviews[..i], test) == Ok(kept) && test(reviews[i]).None?
    ensures Select(reviews, test) == Err(reviews[i])
  {
    assert reviews[..i + 1][..i] == reviews[..i];
    assert Select(reviews[..i + 1], test) == Err(reviews[i]);
    SelectPrefixErr(reviews, i + 1, test);
  }

  /** Once a prefix raises, every longer prefix raises with the same element. */
  lemma {:induction false} SelectPrefixErr<T>(s: seq<T>, n: nat, test: T -> Option<bool>)
    requires n <= |s| && Select(s[..n], test).Err?
    ensures Select(s, test) == Select(s[..n], test)
    decreases |s| - n
  {
    if n < |s| {
      assert s[..n + 1][..n] == s[..n];
      assert Select(s[..n + 1], test) == Select(s[..n], test);
      SelectPrefixErr(s, n + 1, test);
    } else {
      assert s[..n] == s;
    }
  }

  // ----- Workload report -----

  /** A row of the workload report. */
  datatype Workload = Workload(
    userId: string,
    name: string,
    department: string,
    load: nat,
    activeReviews: seq<string>)

  /** The reviewer's `Scheduled` and `In Progress` reviews, in file order. */
  function ActiveFor(reviews: seq<Review>, userId: string): seq<Review>
  {
    Filter(reviews, (r: Review) => r.reviewerId == userId && IsActive(r))
  }

  /** The row built for one user: its load is the number of its active reviews. */
  function WorkloadOf(u: User, reviews: seq<Review>): (w: Workload)
    ensures w.userId == u.id && w.name == u.name && w.department == u.department
    ensures w.load == |ActiveFor(reviews, u.id)| == |w.activeReviews|
    ensures forall i :: 0 <= i < w.load ==> w.activeReviews[i] == ActiveFor(reviews, u.id)[i].id
  {
    var active := ActiveFor(reviews, u.id);
    Workload(u.id, u.name, u.department, |active|, seq(|active|, i requires 0 <= i < |active| => active[i].id))
  }

  /** Position of the dictionary entry with the key. */
  function RowIndex(rows: seq<Workload>, id: string): (r: Option<nat>)
    ensures r.Some? ==> r.value < |rows| && rows[r.value].userId == id
    ensures r.None? ==> forall k :: 0 <= k < |rows| ==> rows[k].userId != id
  {
    if rows == [] then None
    else if rows[0].userId == id then Some(0)
    else match RowIndex(rows[1..], id) {
      case None => None
      case Some(i) => Some(i + 1)
    }
  }

  /**
   * `workloads[w.userId] = w` on Python's insertion-ordered dictionary: an
   * existing key keeps its place and takes the new value, a new key goes last.
   */
  function Put(rows: seq<Workload>, w: Workload): seq<Workload>
  {
    match RowIndex(rows, w.userId)
    case Some(i) => rows[i := w]
    case None => rows + [w]
  }

  /** The dictionary `workloads` after the loop over the users. */
  function Workloads(users: seq<User>, reviews: seq<Review>): seq<Workload>
    decreases |users|
  {
    if users == [] then []
    else Put(Workloads(users[..|users| - 1], reviews), WorkloadOf(users[|users| - 1], reviews))
  }

  /** Position of the last user with the id. */
  function LastUser(users: seq<User>, id: string): (r: Option<nat>)
    ensures r.Some? ==> r.value < |users| && users[r.value].id == id
    ensures r.Some? ==> forall j :: r.value < j < |users| ==> users[j].id != id
    ensures r.None? ==> forall j :: 0 <= j < |users| ==> users[j].id != id
    decreases |users|
  {
    if users == [] then None
    else if users[|users| - 1].id == id then Some(|users| - 1)
    else LastUser(users[..|users| - 1], id)
  }

  predicate DistinctIds(rows: seq<Workload>)
  {
    forall i, j :: 0 <= i < j < |rows| ==> rows[i].userId != rows[j].userId
  }

  /**
   * Assigning to the dictionary: the row for `w`'s key becomes `w`, every other
   * row keeps its place and value, and keys stay distinct.
   */
  lemma PutSpec(rows: seq<Workload>, w: Workload)
    requires DistinctIds(rows)
    ensures var r := Put(rows, w);
      && |rows| <= |r| <= |rows| + 1
      && DistinctIds(r)
      && (forall k :: 0 <= k < |r| && r[k].userId == w.userId ==> r[k] == w)
      && (forall k :: 0 <= k < |r| && r[k].userId != w.userId ==> k < |rows| && r[k] == rows[k])
      && (forall k :: 0 <= k < |rows| ==> r[k].userId == rows[k].userId)
  {
  }

  lemma {:induction false} WorkloadsDistinct(users: seq<User>, reviews: seq<Review>)
    ensures DistinctIds(Workloads(users, reviews))
    decreases |users|
  {
    if users != [] {
      WorkloadsDistinct(users[..|users| - 1], reviews);
      PutSpec(Workloads(users[..|users| - 1], reviews), WorkloadOf(users[|users| - 1], reviews));
    }
  }

  /** Every user's id has a row. */
  lemma {:induction false} WorkloadsCover(users: seq<User>, reviews: seq<Review>)
    ensures forall i :: 0 <= i < |users| ==> RowIndex(Workloads(users, reviews), users[i].id).Some?
    decreases |users|
  {
    if users != [] {
      var n := |users| - 1;
      var front := users[..n];
      var prev := Workloads(front, reviews);
      var w := WorkloadOf(users[n], reviews);
      var rows := Put(prev, w);
      WorkloadsCover(front, reviews);
      WorkloadsDistinct(front, reviews);
      PutSpec(prev, w);
      forall i | 0 <= i < |users| ensures RowIndex(rows, users[i].id).Some? {
        if i < n {
          assert front[i] == users[i];
          var k := RowIndex(prev, users[i].id).value;
          assert rows[k].userId == users[i].id;
        } else {
          assert rows[RowIndexOrLast(prev, w)].userId == users[i].id;
        }
      }
    }
  }

  /** The row is the one built for the last user with its id. */
  predicate RowFrom(users: seq<User>, w: Workload, reviews: seq<Review>)
  {
    LastUser(users, w.userId).Some? && w == WorkloadOf(users[LastUser(users, w.userId).value], reviews)
  }

  /** Each row is the one built for the last user with its id. */
  lemma {:induction false} WorkloadsRows(users: seq<User>, reviews: seq<Review>)
    ensures forall k :: 0 <= k < |Workloads(users, reviews)| ==> RowFrom(users, Workloads(users, reviews)[k], reviews)
    decreases |users|
  {
    if users != [] {
      var n := |users| - 1;
      var front := users[..n];
      var prev := Workloads(front, reviews);
      var w := WorkloadOf(users[n], reviews);
      var rows := Put(prev, w);
      WorkloadsRows(front, reviews);
      WorkloadsDistinct(front, reviews);
      PutSpec(prev, w);
      forall k | 0 <= k < |rows| ensures RowFrom(users, rows[k], reviews) {
        var id := rows[k].userId;
        if id != users[n].id {
          assert k < |prev| && rows[k] == prev[k];
          assert RowFrom(front, prev[k], reviews);
          var j := LastUser(front, id).value;
          assert LastUser(users, id) == Some(j);
          assert users[j] == front[j];
        } else {
          assert rows[k] == w && LastUser(users, id) == Some(n);
        }
      }
    }
  }

  /** Where `Put` leaves its row. */
  function RowIndexOrLast(rows: seq<Workload>, w: Workload): (k: nat)
    ensures k < |Put(rows, w)| && Put(rows, w)[k] == w
  {
    match RowIndex(rows, w.userId)
    case Some(i) => i
    case None => |rows|
  }

  /** The sum of the loads, `sum(w['Current_Load'] for w in ...)`. */
  function Sum(rows: seq<Workload>): nat
  {
    if rows == [] then 0 else rows[0].load + Sum(rows[1..])
  }

  lemma {:induction false} SumAppend(rows: seq<Workload>, w: Workload)
    ensures Sum(rows + [w]) == Sum(rows) + w.load
  {
    if rows != [] {
      assert (rows + [w])[1..] == rows[1..] + [w];
      SumAppend(rows[1..], w);
    }
  }

  lemma {:induction false} SumUpdate(rows: seq<Workload>, i: nat, w: Workload)
    requires i < |rows|
    ensures Sum(rows[i := w]) + rows[i].load == Sum(rows) + w.load
  {
    if i > 0 {
      assert rows[i := w][1..] == rows[1..][i - 1 := w];
      SumUpdate(rows[1..], i - 1, w);
    }
  }

  function LoadOf(w: Workload): nat { w.load }

  /** `reverse=True`: the larger load first. */
  function Ge(a: nat, b: nat): bool { a >= b }

  lemma {:induction false} SumInsert(x: Workload, t: seq<Workload>)
    ensures Sum(Insert(x, t, LoadOf, Ge)) == x.load + Sum(t)
  {
    if t != [] && !Ge(LoadOf(x), LoadOf(t[0])) {
      SumInsert(x, t[1..]);
      assert ([t[0]] + Insert(x, t[1..], LoadOf, Ge))[1..] == Insert(x, t[1..], LoadOf, Ge);
    } else {
      assert ([x] + t)[1..] == t;
    }
  }

  lemma {:induction false} SumSortBy(s: seq<Workload>)
    ensures Sum(SortBy(s, LoadOf, Ge)) == Sum(s)
  {
    if s != [] {
      SumSortBy(s[1..]);
      SumInsert(s[0], SortBy(s[1..], LoadOf, Ge));
    }
  }

  /** An active review whose reviewer is one of the users. */
  function Counted(users: seq<User>): Review -> bool
  {
    (r: Review) => IsActive(r) && IndexOfId(users, r.reviewerId).Some?
  }

  lemma {:induction false} FilterSame<T>(s: seq<T>, f: T -> bool, g: T -> bool)
    requires forall i :: 0 <= i < |s| ==> f(s[i]) == g(s[i])
    ensures Filter(s, f) == Filter(s, g)
  {
    if s != [] {
      FilterSame(s[1..], f, g);
    }
  }

  /** Counting under a test that is the disjoint union of two tests. */
  lemma {:induction false} FilterDisjoint<T>(s: seq<T>, f: T -> bool, g: T -> bool, h: T -> bool)
    requires forall i :: 0 <= i < |s| ==> h(s[i]) == (f(s[i]) || g(s[i])) && !(f(s[i]) && g(s[i]))
    ensures |Filter(s, h)| == |Filter(s, f)| + |Filter(s, g)|
  {
    if s != [] {
      FilterDisjoint(s[1..], f, g, h);
    }
  }

  lemma IndexOfIdSnoc(users: seq<User>, u: User, id: string)
    ensures IndexOfId(users + [u], id).Some? <==> IndexOfId(users, id).Some? || u.id == id
  {
    var s := users + [u];
    if IndexOfId(users, id).Some? {
      assert s[IndexOfId(users, id).value].id == id;
    } else if u.id == id {
      assert s[|users|].id == id;
    } else {
      assert forall j :: 0 <= j < |s| ==> s[j].id != id by {
        assert forall j :: 0 <= j < |users| ==> s[j] == users[j];
      }
    }
  }

  /** A user whose id is already known adds no review to the count. */
  lemma CountedKnown(front: seq<User>, u: User, reviews: seq<Review>)
    requires IndexOfId(front, u.id).Some?
    ensures Filter(reviews, Counted(front + [u])) == Filter(reviews, Counted(front))
  {
    forall r: Review ensures Counted(front + [u])(r) == Counted(front)(r) {
      IndexOfIdSnoc(front, u, r.reviewerId);
    }
    FilterSame(reviews, Counted(front + [u]), Counted(front));
  }

  /** A user with a new id adds exactly its own active reviews to the count. */
  lemma CountedNew(front: seq<User>, u: User, reviews: seq<Review>)
    requires IndexOfId(front, u.id).None?
    ensures |Filter(reviews, Counted(front + [u]))| == |Filter(reviews, Counted(front))| + |ActiveFor(reviews, u.id)|
  {
    forall r: Review ensures Counted(front + [u])(r) == (Counted(front)(r) || (r.reviewerId == u.id && IsActive(r))) {
      IndexOfIdSnoc(front, u, r.reviewerId);
    }
    FilterDisjoint(reviews, Counted(front), (r: Review) => r.reviewerId == u.id && IsActive(r), Counted(front + [u]));
  }

  /**
   * The loads add up to the number of active reviews assigned to one of the
   * users: every such review is counted once, in its reviewer's row.
   */
  lemma {:induction false} WorkloadsTotal(users: seq<User>, reviews: seq<Review>)
    ensures Sum(Workloads(users, reviews)) == |Filter(reviews, Counted(users))|
    decreases |users|
  {
    if users == [] {
      FilterAllOrNone(reviews, Counted(users));
    } else {
      var n := |users| - 1;
      var front := users[..n];
      var u := users[n];
      assert users == front + [u];
      var prev := Workloads(front, reviews);
      var w := WorkloadOf(u, reviews);
      WorkloadsTotal(front, reviews);
      match RowIndex(prev, u.id)
      case Some(i) =>
        SumUpdate(prev, i, w);
        WorkloadsRows(front, reviews);
        assert RowFrom(front, prev[i], reviews);
        var j := LastUser(front, u.id).value;
        assert front[j].id == u.id;
        CountedKnown(front, u, reviews);
      case None =>
        SumAppend(prev, w);
        WorkloadsCover(front, reviews);
        assert IndexOfId(front, u.id).None?;
        CountedNew(front, u, reviews);
    }
  }

  /** The result of `generate_workload_report`, without its file names. */
  datatype WorkloadReport = WorkloadReport(rows: seq<Workload>, reviewerCount: nat, totalReviews: nat)

  /** `generate_workload_report` over the users and reviews read from the files. */
  function WorkloadReportOf(users: seq<User>, reviews: seq<Review>): WorkloadReport
  {
    var sorted := SortBy(Workloads(users, reviews), LoadOf, Ge);
    WorkloadReport(sorted, |sorted|, Sum(sorted))
  }

  /**
   * The report lists the dictionary's rows, sorted by load with the heaviest
   * first; the total is the number of active reviews held by the users.
   */
  lemma WorkloadReportSpec(users: seq<User>, reviews: seq<Review>)
    ensures var report := WorkloadReportOf(users, reviews);
      && multiset(report.rows) == multiset(Workloads(users, reviews))
      && SortedBy(report.rows, LoadOf, Ge)
      && report.reviewerCount == |Workloads(users, reviews)|
      && report.totalReviews == |Filter(reviews, Counted(users))|
  {
    var rows := Workloads(users, reviews);
    assert TotalPreorder(Ge);
    SortBySorted(rows, LoadOf, Ge);
    SumSortBy(rows);
    WorkloadsTotal(users, reviews);
  }

  /** Every row of the report is a user's, and its load is the number of that reviewer's active reviews. */
  lemma WorkloadReportLoads(users: seq<User>, reviews: seq<Review>)
    ensures var report := WorkloadReportOf(users, reviews);
      forall k :: 0 <= k < |report.rows| ==>
        RowFrom(users, report.rows[k], reviews) && report.rows[k].load == |ActiveFor(reviews, report.rows[k].userId)|
  {
    var rows := Workloads(users, reviews);
    var sorted := SortBy(rows, LoadOf, Ge);
    WorkloadsRows(users, reviews);
    forall k | 0 <= k < |sorted| ensures RowFrom(users, sorted[k], reviews) {
      assert sorted[k] in multiset(sorted);
      assert sorted[k] in rows;
      var j :| 0 <= j < |rows| && rows[j] == sorted[k];
      assert RowFrom(users, rows[j], reviews);
    }
  }

  /** Rows with equal loads keep the order of the dictionary. */
  lemma WorkloadReportStable(users: seq<User>, reviews: seq<Review>, load: nat)
    ensures WithKey(WorkloadReportOf(users, reviews).rows, LoadOf, load) == WithKey(Workloads(users, reviews), LoadOf, load)
  {
    SortByStable(Workloads(users, reviews), LoadOf, Ge, load);
  }

  /** `generate_workload_report`: the loop filling the dictionary, the sort and the sum. */
  method GenerateWorkloadReport(users: seq<User>, reviews: seq<Review>) returns (report: WorkloadReport)
    ensures report == WorkloadReportOf(users, reviews)
  {
    var workloads: seq<Workload> := [];
    for i := 0 to |users|
      invariant workloads == Workloads(users[..i], reviews)
    {
      assert users[..i + 1][..i] == users[..i];
      var user := users[i];
      var active := ActiveFor(reviews, user.id);
      var row := Workload(user.id, user.name, user.department, |active|, seq(|active|, k requires 0 <= k < |active| => active[k].id));
      workloads := Put(workloads, row);
    }
    assert users[..|users|] == users;
    var sorted := SortBy(workloads, LoadOf, Ge);
    report := WorkloadReport(sorted, |sorted|, Sum(sorted));
  }

  // ----- Notification subject -----

  /**
   * The subject of a review notification: the project name followed by
   * ` - Review Required`, with `[URGENT] ` in front exactly when the
   * project's status is `Overdue`.
   */
  function Subject(p: Project): (s: string)
    ensures |s| >= |p.name| + 18
    ensures s[|s| - 18..] == " - Review Required"
    ensures s[|s| - 18 - |p.name|..|s| - 18] == p.name
    ensures s[..|s| - 18 - |p.name|] == (if p.status == Overdue then "[URGENT] " else "")
  {
    var subject := p.name + " - Review Required";
    if p.status == Overdue then "[URGENT] " + subject else subject
  }
}
