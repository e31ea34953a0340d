# Project review scheduler: a Dafny model

The scheduler keeps three CSV tables:

- **Projects**: id, name, start date, last review date, review frequency in years, department, status, next review date.
- **Users**: the reviewers, each with a department and a current load.
- **Reviews**: project, reviewer, scheduled date, status.

This project models the core of the scheduler and proves its properties. The core covers:

- **Due dates.** The next review date is the last review date plus `int(years * 12)` calendar months. The month addition keeps the day of the month and clamps it to the target month's last day.
- **Status.** The status is `Overdue`, `Due Soon` or `Up to Date`, set by the day difference to a reference date.
- **Reviewer assignment.** The assignment engine coerces loads to integers. It picks the least-loaded reviewer from another department, taking the earliest on ties; only when there is none does it fall back to the least-loaded reviewer overall. It then increments the chosen reviewer's load and appends a `Scheduled` review.
- **Batch assignment.** The batch assigns every `Overdue`/`Due Soon` project that has no active review. All picks share one reviewer list, so later picks see the loads raised by earlier ones.
- **Validators.**
  - Per-cell required, date and number checks on a CSV table.
  - Referential checks of reviews against projects and users.
- **Command-line tokeniser.**
- **Reports.**
  - Which reviews a monthly schedule holds, and in what order.
  - The per-reviewer workload table.
  - The subject line of a notification.

Files (one module each):

| file | module | contents |
|---|---|---|
| wrappers.dfy | Wrappers | `Option`, `Result`, an all-or-nothing map over a list, an in-place array update proved against it, `Filter` |
| text.dfy | Text | Python's `int()` / `float()` on strings, `str(n)`, string order |
| calendar.dfy | Calendar | proleptic Gregorian dates, day numbers, `relativedelta(months=k)`, `strptime`/`strftime` with `%Y-%m-%d` |
| records.dfy | Records | the three row types and the status words |
| sorting.dfy | Sorting | Python's stable `sorted(key=...)` as an insertion sort, with sortedness, permutation and stability |
| store.dfy | RecordStore | the tables in memory: users as an array updated in place, reviews as a growing sequence |
| due_dates.dfy | DueDates | `calculate_due_date`, `calculate_all_reviews`, and the wall-clock discrepancy under Findings |
| frames.dfy | DueFrames | the DataFrame variants `calculate_due_dates` that work from `Start_Date` |
| assignment.dfy | Assignment | `assign_reviewer`, `assign_reviewer_enhanced`, `assign_all_reviewers` and its notebook variant |
| validation.dfy | Validation | `validate_csv_data`, `validate_referential_integrity` |
| cli.dfy | Cli | `parse_args` |
| reports.dfy | Reports | the selection, sorting and counting in `generate_monthly_schedule` and `generate_workload_report`; the notification subject |

Modelling choices:

- **Reference date and wall clock.** The reference date is a parameter. The wall clock, the fresh `Review_ID` and the `Scheduled_Date` written into a new review become parameters too: a `Stamp` for each assignment.
- **Write failures.** A failure of a store write inside the batch is an oracle parameter (`Fault`). That is how the batch's `except Exception` branch is reached.
- **Frequencies.** A frequency is parsed exactly, as a decimal mantissa and exponent. `int(years * 12)` truncates toward zero, which differs from a floor for negative frequencies; the model truncates.
- **Python errors.** A date or number that makes Python raise `ValueError` yields `None`/`Err` in the model. The parsers read ASCII digits only, so the model also rejects some strings Python accepts (see Left out).

## Model

| member | source | states |
|---|---|---|
| Text.IntToStringRoundTrip | src/scheduler.py:468-472 | a load written back as `str(n)` is read by `int()` as `n` again |
| Text.StrLeTotal | src/streamlit_app1.py:844 | Python's string order, used to sort by `Scheduled_Date`, compares every pair |
| Text.StrLeTransitive | src/streamlit_app1.py:844 | the string order is transitive |
| Text.StrLeAntisymmetric | src/streamlit_app1.py:844 | strings that compare both ways are equal |
| Calendar.DaysInMonth | src/scheduler.py:394 | month lengths are 28 to 31 days, and 29 only for February of a leap year |
| Calendar.AddMonths | src/scheduler.py:394 | `relativedelta(months=k)` lands exactly `k` months later, and fails only when the year leaves 1..9999 |
| Calendar.AddMonthsDay | src/scheduler.py:394 | the day of the month is kept, or clamped to the last day of the target month |
| Calendar.AddMonthsZero | src/scheduler.py:394 | adding zero months changes nothing |
| Calendar.AddMonthsCompose | src/scheduler.py:394 | for days up to the 28th, adding `a` then `b` months is adding `a + b` months |
| Calendar.AddMonthsMonotone | src/scheduler.py:394 | more months never give an earlier date, and strictly more give a strictly later date |
| Calendar.AddMonthsLater | src/scheduler.py:394 | a positive number of months moves the date at least 28 days per month after the first |
| Calendar.NextDayNumber | src/scheduler.py:397 | consecutive dates have consecutive day numbers, so day differences count days |
| Calendar.AddDaysNumber | src/scheduler.py:500 | adding `n` days advances the day number by `n` |
| Calendar.ParseFormatDate | src/scheduler.py:387-409 | `strptime` reads back every date that `strftime('%Y-%m-%d')` writes |
| Calendar.HalfYearDates | src/scheduler.py:387-397 | 2025-01-01 parses, six months on is 2025-07-01, and that is 30 days after 2025-06-01 |
| Sorting.SortBy | src/scheduler.py:475 | the sorted list is a permutation of the input |
| Sorting.SortBySorted | src/scheduler.py:475 | for a total preorder on keys, the output is sorted by key |
| Sorting.SortByStable | src/scheduler.py:475 | elements with equal keys keep their input order |
| Sorting.SortByAll | src/scheduler.py:475 | a property of every input element holds of every output element |
| RecordStore.IndexOfId | src/scheduler.py:593-598 | finds the first user with the id, or reports that none has it |
| RecordStore.ReplaceFirstSpec | src/scheduler.py:593-598 | `update_user` replaces only the first row whose `User_ID` matches, and changes nothing when none does |
| RecordStore.Store.UpdateUser | src/scheduler.py:585-598 | the users array becomes the list with the first matching row replaced |
| RecordStore.Store.AddReview | src/scheduler.py:571-581 | the reviews become the old reviews plus the new one; projects are untouched |
| RecordStore.Store.WriteProjects | src/scheduler.py:433-437 | the projects table is replaced and the reviews are untouched |
| DueDates.StatusFor | src/scheduler.py:397-404 | `Overdue` iff the day difference is negative; `Due Soon` iff it is 0 to 30; `Up to Date` iff it is above 30. The three are exhaustive and disjoint |
| DueDates.StatusMonotone | src/scheduler.py:397-404 | a later due date is never more urgent |
| DueDates.StatusNameInjective | src/scheduler.py:399-404 | the three status words are distinct |
| DueDates.MonthsOfTruncates | src/scheduler.py:394 | `int(years * 12)` is `12 * years` truncated toward zero |
| DueDates.HalfYearIsSixMonths | src/scheduler.py:388-394 | the frequency `0.5` gives six months |
| DueDates.NextReviewAfter | src/scheduler.py:388-394 | the next review is the base date plus the whole months, or the error that Python raises |
| DueDates.CalculateDueDate | src/scheduler.py:407-411 | the result is a copy of the project in which only `Next_Review_Date` and `Status` may differ |
| DueDates.CalculateDueDateSpec | src/scheduler.py:387-411 | `Next_Review_Date` is the last review plus `int(years*12)` months, and the status comes from the days until it. A positive number of months gives a later date |
| DueDates.CalculateDueDateErrors | src/scheduler.py:387-388 | an unparseable last review date or frequency is an error |
| DueDates.CalculateDueDateIdempotent | src/scheduler.py:407-411 | recomputing with the same reference date gives the same project |
| DueDates.HalfYearExample | src/scheduler.py:387-411 | 2025-01-01 with 0.5 years gives 2025-07-01, which is `Due Soon` on 2025-06-01 |
| DueDates.DueAllSpec | src/scheduler.py:433-435 | every project is recomputed individually, and one error fails the whole run |
| DueDates.DueAllIdempotent | src/scheduler.py:433-437 | recomputing all projects is idempotent |
| DueDates.CountsCoverAll | src/scheduler.py:441-446 | when every status is one of the three words, the three counts add up to the number of projects |
| DueDates.DueAllCounts | src/scheduler.py:441-446 | after the recomputation, `overdue + due_soon + up_to_date == total_projects == len(projects)` |
| DueDates.CalculateAllReviews | src/scheduler.py:413-448 | the projects are updated in place to the recomputed list and the counts are returned. On an error nothing is written. Reviews are untouched |
| DueDates.DaysUntilAtDrop | src/scheduler.py:380-397 | with a `datetime.now()` reference, the day difference is one less whenever the time of day is past midnight |
| DueDates.DueTodayOverdueAfterMidnight | src/scheduler.py:380-400 | with a `datetime.now()` reference, a review due today is `Overdue` |
| DueDates.StatusAtMidnight | src/scheduler.py:382-404 | with a midnight reference, the status is the date-only status, and due today is `Due Soon` |
| DueFrames.RowDue | src/streamlit_app1.py:411-439 | only `Next_Review_Date` and `Status` of the row change |
| DueFrames.RowDueSpec | src/streamlit_app1.py:414-433 | the next date is `Start_Date` plus `int(years*12)` months, with the 0/30-day thresholds |
| DueFrames.RowNextAgrees | src/streamlit_app1.py:1275-1289 | the live redefinition computes the same `Next_Review_Date` and leaves `Status` alone |
| DueFrames.CalculateDueDates | src/streamlit_app1.py:393-444 | the frame's rows are replaced in place by the recomputed rows, or left unchanged on an error |
| DueFrames.CalculateNextDates | src/streamlit_app1.py:1270-1294 | the same, for the live redefinition |
| DueFrames.CalculateDueDatesRows | src/streamlit_app1.py:411-441 | every recomputed row keeps its project id and gets the next date from its own start date |
| Wrappers.MapAllSpec | src/scheduler.py:433-435 | mapping succeeds iff each element succeeds, and then maps each one |
| Wrappers.UpdateEach | src/scheduler.py:433-435 | the in-place loop leaves the array equal to the mapped list, or reports the first error |
| Wrappers.Filter | src/scheduler.py:527-534 | a list comprehension keeps exactly the elements that pass the test |
| Wrappers.FilterSplit | src/scheduler.py:563 | the kept and the dropped elements add up to the whole list |
| Assignment.LoadValueWritten | src/scheduler.py:468-472 | a load already coerced, or written as `str(n)`, reads back as `n` |
| Assignment.LoadValueUnreadable | src/scheduler.py:468-472 | a load whose text holds no digit at all, such as `""` or `n/a`, counts as 0 |
| Assignment.CoercedSame | src/scheduler.py:468-472 | coercing the loads keeps their values and the departments |
| Assignment.ByLoadPositions | src/scheduler.py:475 | the stable sort by load orders positions by load, then by position, and lists every position |
| Assignment.FirstOther | src/scheduler.py:478-481 | finds the first reviewer in sorted order who is from another department, or reports that there is none |
| Assignment.Choose | src/scheduler.py:464-488 | a reviewer is chosen iff the pool is non-empty, and it is a member of the pool |
| Assignment.ChooseSpec | src/scheduler.py:475-488 | the choice is the least-loaded reviewer from another department, earliest on ties. Only if all share the project's department is it the least-loaded overall |
| Assignment.AssignStep | src/scheduler.py:456-506 | an empty pool yields no reviewer and no change. Only an assignment appends a review |
| Assignment.AssignStepSpec | src/scheduler.py:468-503 | only the chosen reviewer's load grows by 1; every other load is only coerced. The user row is written with replace-first. The new review is `Scheduled`, with the project's and reviewer's ids and an empty completion date. A failing write raises |
| Assignment.AssignStepTotal | src/scheduler.py:491 | one assignment raises the sum of loads by exactly 1 |
| Assignment.AssignReviewer | src/scheduler.py:456-506 | the reviewer array is mutated in place: loads are coerced and the chosen one is incremented. The store is updated as the step function says |
| Assignment.CoerceLoads | src/scheduler.py:467-472 | the loop rewrites each reviewer's load to its integer value |
| Assignment.AssignReviewerEnhanced | src/scheduler.py:602-700 | the caller's reviewer list is unchanged, because the work is done on copies; the store changes as for `assign_reviewer` |
| Assignment.RunBatchAccounts | src/scheduler.py:539-566 | `total_assigned + failed_assignments == len(projects_to_assign)`. The new reviews are appended in order |
| Assignment.RunBatchEmptyPool | src/scheduler.py:545-551 | with no reviewers nothing is assigned, and every project fails with `No available reviewers` |
| Assignment.RunBatchTotal | src/scheduler.py:543-546 | later picks see earlier increments: the shared loads grow by one per project |
| Assignment.ToAssignSpec | src/scheduler.py:527-534 | only `Overdue`/`Due Soon` projects without an active review are attempted, and `already_assigned == needing - to_assign` |
| Assignment.AssignAllReviewers | src/scheduler.py:509-567 | the summary counts and the stored users and reviews are those of the batch run over the projects to assign |
| Assignment.AssignEach | src/scheduler.py:541-557 | the loop performs the batch run on the shared array |
| Assignment.RunUntilRaiseAgrees | src/streamlit_app1.py:641-645 | without write failures the notebook variant assigns exactly what the batch does |
| Assignment.RunUntilRaiseBound | src/streamlit_app1.py:641-652 | `total_assigned <= len(projects_to_assign)`; with no reviewers nothing is assigned |
| Assignment.RaisedStaysRaised | src/streamlit_app1.py:641-645 | once a write raises, the notebook variant stops |
| Assignment.AssignAllReviewersQuiet | src/streamlit_app1.py:617-652 | the summary of the variant with no failure list. It reads the given files, and its writes go to the default users and reviews tables |
| Assignment.QuietOutcome | src/streamlit_app1.py:647-652 | the first fault is returned as such; otherwise the summary holds the new reviews and their count, the number of projects needing review, and how many of those already had an active review (the needing ones not attempted) |
| Assignment.AssignEachUntilRaise | src/streamlit_app1.py:641-645 | the loop performs the notebook run |
| Validation.FieldErrors | src/streamlit_app1.py:283-326 | at most one error per cell. A blank required field gives exactly `Missing`, and its type check is skipped. A blank optional field gives none |
| Validation.RowErrorsAt | src/streamlit_app1.py:283-328 | a row's errors for one field are that field's check |
| Validation.CsvErrorsAt | src/streamlit_app1.py:283-328 | the errors for row `k + 2` and a field are exactly that cell's check, whatever the other rows hold |
| Validation.MissingReportedOnce | src/streamlit_app1.py:285-292 | a missing required cell is reported exactly once |
| Validation.ErrorRowsInRange | src/streamlit_app1.py:283 | row numbers start at 2 and stay within the file |
| Validation.CsvValid | src/streamlit_app1.py:283-328 | there are no errors iff every cell passes |
| Validation.ValidateCsvData | src/streamlit_app1.py:279-328 | the nested loops produce the specified error list, and `valid` iff it is empty |
| Validation.SchemaFor | src/streamlit_app1.py:251-277 | a schema is chosen iff the file name contains `Projects`, `Users` or `Reviews`; its field names are distinct |
| Validation.RefErrorsSound | src/streamlit_app1.py:344-363 | every error names a review row (numbered from 2) and a project or reviewer id of that review that does not exist |
| Validation.RefErrorsComplete | src/streamlit_app1.py:344-363 | every review whose project or reviewer id does not exist gets an error for that row and field |
| Validation.RefErrorsNone | src/streamlit_app1.py:344-368 | there are no errors, so `valid`, iff every review's references resolve |
| Validation.RefErrorsCount | src/streamlit_app1.py:346-363 | one error per dangling reference |
| Validation.ValidateReferentialIntegrity | src/streamlit_app1.py:330-368 | the loop produces the specified error list, and `valid` iff it is empty |
| Cli.ParseArgs | src/streamlit_app1.py:1077-1094 | empty arguments give exactly `{'command': 'help'}`; otherwise there is a `command` entry |
| Cli.ValueAt | src/streamlit_app1.py:1089-1092 | an option takes the next token unless that token is itself an option or missing; then it is `True` |
| Cli.ParseArgsLastWins | src/streamlit_app1.py:1086-1092 | the value of key `k` is set by the last `--k`, so a later duplicate overwrites an earlier one |
| Cli.ParseArgsUnnamed | src/streamlit_app1.py:1084-1092 | a key that no option names is present only as `command`, which is `args[0]` |
| Cli.ParseArgsKeys | src/streamlit_app1.py:1084-1092 | every other key comes from some `--key` |
| Cli.ParseArguments | src/streamlit_app1.py:1077-1094 | the loop builds the specified dictionary |
| Reports.SelectOk | src/streamlit_app1.py:816-841 | the scan succeeds iff no kept candidate raises, and then keeps exactly the accepted reviews, in order |
| Reports.SelectErr | src/streamlit_app1.py:816-824 | a failed scan stops at the first review that raises |
| Reports.ProjectName | src/streamlit_app1.py:827-834 | the first project with the id gives the name, otherwise `Unknown` |
| Reports.ReviewerName | src/streamlit_app1.py:828-836 | the first user with the id gives the name, otherwise `Unknown` |
| Reports.Kept | src/streamlit_app1.py:816-824 | exactly the `Scheduled`/`In Progress` reviews whose date falls in the month and year, both compared zero padded as `strftime` writes them |
| Reports.MonthlyScheduleFails | src/streamlit_app1.py:818-822 | the corrected report raises iff an active review's date does not parse, and on the first such review |
| Reports.MonthlyScheduleSpec | src/streamlit_app1.py:816-863 | in the corrected report, whose file holds only the listed columns, the entries are the enriched kept reviews, in any order, sorted by `Scheduled_Date`; `review_count` is their number |
| Reports.MonthlyScheduleStable | src/streamlit_app1.py:844 | reviews on the same date keep their file order |
| Reports.EntryRows | src/streamlit_app1.py:831-839 | one dictionary per entry, in order, with the seven keys of the enriched review |
| Reports.ExtraKeys | src/streamlit_app1.py:125-127 | the keys of a row that `fieldnames` does not list, exactly |
| Reports.FirstWrongRow | src/streamlit_app1.py:125-127 | `writerows` with the default `extrasaction='raise'` fails iff some row has a key outside `fieldnames`, and at the first such row |
| Reports.EntryRowExtra | src/streamlit_app1.py:831-853 | every enriched row carries exactly `Review_ID` and `Reviewer_ID` beyond the five fieldnames |
| Reports.MonthlyScheduleAsWrittenRaises | src/streamlit_app1.py:816-864 | as written, the report is returned iff the dates parse and no review is kept; once one is kept, writing it raises for `Review_ID` and `Reviewer_ID` |
| Reports.OneReviewRaises | src/streamlit_app1.py:816-857 | one `Scheduled` review dated 2025-05-10, for month `05` of `2025`: the corrected report keeps it, and the code as written raises |
| Reports.GenerateMonthlySchedule | src/streamlit_app1.py:799-864 | the append loop, the in-place sort and the write of a non-empty schedule give the as-written outcome |
| Reports.WorkloadsDistinct | src/streamlit_app1.py:881-893 | the dictionary holds one row per distinct `User_ID` |
| Reports.WorkloadsCover | src/streamlit_app1.py:881-893 | every user's id has a row |
| Reports.WorkloadsRows | src/streamlit_app1.py:881-893 | each row is the one built for the last user with that id |
| Reports.WorkloadOf | src/streamlit_app1.py:883-893 | a row's `Current_Load` is the number of that reviewer's active reviews, and its ids are theirs |
| Reports.WorkloadsTotal | src/streamlit_app1.py:881-925 | the loads add up to the number of active reviews held by some user |
| Reports.WorkloadReportSpec | src/streamlit_app1.py:896-926 | the rows are the dictionary's, sorted by load with the heaviest first. `reviewer_count` is their number. `total_reviews` counts the active reviews of the users |
| Reports.WorkloadReportLoads | src/streamlit_app1.py:883-896 | every reported row's load is the number of that reviewer's active reviews |
| Reports.WorkloadReportStable | src/streamlit_app1.py:896 | rows with equal loads keep the dictionary's order |
| Reports.GenerateWorkloadReport | src/streamlit_app1.py:866-926 | the loop, sort and sum produce the specified report |
| Reports.Subject | src/streamlit_app1.py:718-720 | the subject is the project name plus ` - Review Required`, with `[URGENT] ` in front exactly when the status is `Overdue` |

## Left out

- File I/O is not modelled, and the tables are in memory:
  - `read_csv`, `write_csv`, `backup_file` and `create_csv_if_missing`;
  - the missing-file path of `validate_csv_data`.
- The wall clock is a parameter:
  - the reference date of `calculate_due_date` is a date;
  - `Review_ID` and `Scheduled_Date` of a new review come from a `Stamp`;
  - the workload report's dated file name is not modelled.
- The time of day of `datetime.now()` appears only under Findings.
- Floating point: `float()` is read exactly as a decimal, so binary rounding of `years * 12` is not modelled. The unused `frequency_days` is dropped.
- pandas: `to_datetime(errors='coerce')` turning a bad `Start_Date` into `NaT`, and the `Timestamp` year range, are not modelled. A frame row holds a valid date.
- `datetime` overflow past year 9999 is modelled only for `relativedelta`. The `+ timedelta(days=30)` of `Scheduled_Date` is a parameter.
- SMTP sending, the e-mail body, charts, the Streamlit UI, `execute_command`/`main` and `sys.argv` handling are I/O plumbing and are left out. Only the subject rule is kept.
- Superseded code is left out:
  - the earlier `parse_args` definitions, including the one that rewrites `-` to `_` in keys;
  - the dead code after `return` in `calculate_due_dates`;
  - `calculate_all_reviews` of the notebook, which calls an undefined function;
  - the random `assign_reviewers`;
  - `reset_and_assign.py`, `universal_dashboard.py` and `utils.py`.
- Exception text in failure reasons is reduced to the kind of fault (`Fault`).
- The `reviewers=None` default, which rereads `Users.csv`, is not modelled. Every call passes the pool explicitly, as the batch does.
- A `None` schema is not modelled: `SchemaFor` returns `None` for an unknown file name, and `validate_csv_data` would then fail on `schema.items()`.
- Calendar.FormatDate and Reports.InMonth: both take `%Y` as a four-digit, zero-padded year. A C library that writes years below 1000 without padding is not modelled.
- Text.ParseInt: reads ASCII digits only, with no `_` separators. Python's `int()` also reads `1_0` and non-ASCII decimal digits. So a load of `1_0` is 10 in the source but 0 in `LoadValue`.
- Text.ParseFloat: reads ASCII digits only, with no `_` separators. A frequency of `1_0` is therefore an error in the model, and `FieldErrors` reports it, while `float()` reads 10.
- Calendar.ParseDate: `\d` in `strptime`'s patterns is read as an ASCII digit. A date written in non-ASCII digits is rejected, though Python reads it.
- Every CSV row is taken to be complete: each cell is a string. In the source, a row shorter than its header gives `None` cells. Then `int(None)` raises `TypeError`, which nothing catches.
- Reports.MonthlyScheduleAsWritten: before the raise, `write_csv` has already backed up the schedule file and truncated it to its header. File I/O is not modelled.
- Reports.WorkloadsRows: the order of the dictionary's rows (first occurrence of each id) is not stated. Only their contents, their distinct ids and the stability of the final sort are.

## Findings

| source | as written | input that shows it | evidently intended | confidence | as-written member | corrected member |
|---|---|---|---|---|---|---|
| src/streamlit_app1.py:831-857 | the enriched dictionaries carry `Review_ID` and `Reviewer_ID`, which the five `fieldnames` omit, and `DictWriter`'s default `extrasaction='raise'` makes `writerows` raise `ValueError` whenever a review is kept | one `Scheduled` review dated `2025-05-10`, schedule for month `05` of `2025` | the schedule file holds the five listed columns, and the report is returned | not executed | Reports.OneReviewRaises | Reports.MonthlySchedule |
| src/scheduler.py:380-397 | with no `current_date`, the reference is `datetime.now()`, a time of day after midnight, while `next_review` is at midnight, so `(next_review - now).days` is one less than the calendar-day difference | a project whose next review is today, checked at 09:00 with the default reference: `days_until_review == -1`, so it is `Overdue` | a review due today is `Due Soon`, as with a date-only reference (`DueDates.StatusAtMidnight`) | not executed | DueDates.DueTodayOverdueAfterMidnight | DueDates.StatusAtMidnight |
