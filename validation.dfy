/**
 * The two validators: the per-row schema check of a CSV file
 * (`validate_csv_data`) and the check that every review names an existing
 * project and an existing user (`validate_referential_integrity`).
 */
module Validation {
  import opened Wrappers
  import opened Text
  import opened Calendar
  import opened Records
  import opened RecordStore

  // ----- the schema check -----

  /** A CSV row as the reader returns it; a missing or `None` cell is an absent key. */
  type Row = map<string, string>

  datatype Kind = StringField | DateField | DecimalField | IntegerField

  /** One schema entry: the column, its type and whether it is required. */
  datatype Field = Field(name: string, kind: Kind, required: bool)

  datatype Problem = Missing | NotADate | NotANumber | NotAnInteger

  /** One entry of `errors`: the row number (the header is row 1), the column and what is wrong. */
  datatype CellError = CellError(row: int, field: string, problem: Problem)

  predicate Blank(row: Row, name: string)
  {
    name !in row || row[name] == ""
  }

  predicate DistinctNames(schema: seq<Field>)
  {
    forall i, j :: 0 <= i < j < |schema| ==> schema[i].name != schema[j].name
  }

  /**
   * The checks of one column in row `i`: a blank required cell is reported
   * once and its type is not checked; a blank optional cell is skipped;
   * otherwise dates must read as `%Y-%m-%d`, numbers as `float`, and integers
   * must also have no '.'.
   */
  function FieldErrors(row: Row, i: int, f: Field): (r: seq<CellError>)
    ensures |r| <= 1
    ensures forall k :: 0 <= k < |r| ==> r[k].row == i && r[k].field == f.name
    ensures f.required && Blank(row, f.name) ==> r == [CellError(i, f.name, Missing)]
    ensures !f.required && Blank(row, f.name) ==> r == []
    ensures r != [] && r[0].problem == Missing ==> f.required && Blank(row, f.name)
  {
    if Blank(row, f.name) then
      if f.required then [CellError(i, f.name, Missing)] else []
    else
      var v := row[f.name];
      match f.kind
      case StringField => []
      case DateField => if ParseDate(v).None? then [CellError(i, f.name, NotADate)] else []
      case DecimalField => if ParseFloat(v).None? then [CellError(i, f.name, NotANumber)] else []
      case IntegerField =>
        if ParseFloat(v).None? then [CellError(i, f.name, NotANumber)]
        else if '.' in v then [CellError(i, f.name, NotAnInteger)]
        else []
  }

  /** A per-column check: the errors it reports for a row number and a column carry both. */
  ghost predicate Tagged(check: (Row, int, Field) -> seq<CellError>)
  {
    forall row, i, f, k :: 0 <= k < |check(row, i, f)| ==> check(row, i, f)[k].row == i && check(row, i, f)[k].field == f.name
  }

  function FieldCheck(): (Row, int, Field) -> seq<CellError>
  {
    (row, i, f) => FieldErrors(row, i, f)
  }

  lemma FieldCheckTagged()
    ensures Tagged(FieldCheck())
  {
  }

  /** The errors of row number `i`, column by column in schema order. */
  function RowErrors(check: (Row, int, Field) -> seq<CellError>, row: Row, i: int, schema: seq<Field>): seq<CellError>
  {
    if schema == [] then []
    else RowErrors(check, row, i, schema[..|schema| - 1]) + check(row, i, schema[|schema| - 1])
  }

  /** The errors of all rows; the first data row is row 2. */
  function CsvErrors(check: (Row, int, Field) -> seq<CellError>, rows: seq<Row>, schema: seq<Field>): seq<CellError>
  {
    if rows == [] then []
    else
      var n := |rows| - 1;
      CsvErrors(check, rows[..n], schema) + RowErrors(check, rows[n], n + 2, schema)
  }

  function At(i: int, name: string): CellError -> bool
  {
    (e: CellError) => e.row == i && e.field == name
  }

  lemma {:induction false} RowErrorsRow(check: (Row, int, Field) -> seq<CellError>, row: Row, i: int, schema: seq<Field>)
    requires Tagged(check)
    ensures forall k :: 0 <= k < |RowErrors(check, row, i, schema)| ==> RowErrors(check, row, i, schema)[k].row == i
  {
    if schema != [] {
      RowErrorsRow(check, row, i, schema[..|schema| - 1]);
    }
  }

  lemma {:induction false} CsvErrorsRows(check: (Row, int, Field) -> seq<CellError>, rows: seq<Row>, schema: seq<Field>)
    requires Tagged(check)
    ensures forall k :: 0 <= k < |CsvErrors(check, rows, schema)| ==> 2 <= CsvErrors(check, rows, schema)[k].row < |rows| + 2
  {
    if rows != [] {
      var n := |rows| - 1;
      CsvErrorsRows(check, rows[..n], schema);
      RowErrorsRow(check, rows[n], n + 2, schema);
    }
  }

  /** A column's own errors all carry its row number and name, so filtering on both keeps them all. */
  lemma ColumnSame(check: (Row, int, Field) -> seq<CellError>, row: Row, i: int, f: Field)
    requires Tagged(check)
    ensures Filter(check(row, i, f), At(i, f.name)) == check(row, i, f)
  {
    FilterAllOrNone(check(row, i, f), At(i, f.name));
  }

  /** Filtering a column's errors on another row number or another name keeps none. */
  lemma ColumnOther(check: (Row, int, Field) -> seq<CellError>, row: Row, i: int, f: Field, i': int, name: string)
    requires Tagged(check) && (i != i' || f.name != name)
    ensures Filter(check(row, i, f), At(i', name)) == []
  {
    FilterAllOrNone(check(row, i, f), At(i', name));
  }

  lemma FilterNoneRight<T>(a: seq<T>, b: seq<T>, f: T -> bool)
    requires Filter(b, f) == []
    ensures Filter(a + b, f) == Filter(a, f)
  {
    FilterAppend(a, b, f);
    assert Filter(a, f) + [] == Filter(a, f);
  }

  lemma FilterNoneLeft<T>(a: seq<T>, b: seq<T>, f: T -> bool)
    requires Filter(a, f) == []
    ensures Filter(a + b, f) == Filter(b, f)
  {
    FilterAppend(a, b, f);
    assert [] + Filter(b, f) == Filter(b, f);
  }

  lemma {:induction false} RowErrorsAt(check: (Row, int, Field) -> seq<CellError>, row: Row, i: int, schema: seq<Field>, j: nat)
    requires Tagged(check) && DistinctNames(schema) && j < |schema|
    ensures Filter(RowErrors(check, row, i, schema), At(i, schema[j].name)) == check(row, i, schema[j])
  {
    var m := |schema| - 1;
    var name := schema[j].name;
    var front := RowErrors(check, row, i, schema[..m]);
    var last := check(row, i, schema[m]);
    assert RowErrors(check, row, i, schema) == front + last;
    if j < m {
      assert schema[..m][j] == schema[j];
      RowErrorsAt(check, row, i, schema[..m], j);
      ColumnOther(check, row, i, schema[m], i, name);
      FilterNoneRight(front, last, At(i, name));
    } else {
      RowErrorsNone(check, row, i, schema[..m], name);
      ColumnSame(check, row, i, schema[m]);
      FilterNoneLeft(front, last, At(i, name));
    }
  }

  lemma {:induction false} RowErrorsNone(check: (Row, int, Field) -> seq<CellError>, row: Row, i: int, schema: seq<Field>, name: string)
    requires Tagged(check)
    requires forall k :: 0 <= k < |schema| ==> schema[k].name != name
    ensures Filter(RowErrors(check, row, i, schema), At(i, name)) == []
  {
    if schema != [] {
      var m := |schema| - 1;
      var front := RowErrors(check, row, i, schema[..m]);
      var last := check(row, i, schema[m]);
      assert RowErrors(check, row, i, schema) == front + last;
      RowErrorsNone(check, row, i, schema[..m], name);
      ColumnOther(check, row, i, schema[m], i, name);
      FilterNoneRight(front, last, At(i, name));
    }
  }

  /**
   * The errors reported for row `k + 2` and column `schema[j]` are exactly that
   * column's check on the `k`-th data row: nothing from another row or column.
   */
  lemma {:induction false} CsvErrorsAt(check: (Row, int, Field) -> seq<CellError>, rows: seq<Row>, schema: seq<Field>, k: nat, j: nat)
    requires Tagged(check) && DistinctNames(schema) && k < |rows| && j < |schema|
    ensures Filter(CsvErrors(check, rows, schema), At(k + 2, schema[j].name)) == check(rows[k], k + 2, schema[j])
    decreases |rows|
  {
    var n := |rows| - 1;
    if k < n {
      CsvErrorsAt(check, rows[..n], schema, k, j);
      CsvErrorsAtEarlier(check, rows, schema, k, j);
    } else {
      CsvErrorsAtLast(check, rows, schema, j);
    }
  }

  /** The last row adds nothing for an earlier row number. */
  lemma CsvErrorsAtEarlier(check: (Row, int, Field) -> seq<CellError>, rows: seq<Row>, schema: seq<Field>, k: nat, j: nat)
    requires Tagged(check) && k + 1 < |rows| && j < |schema|
    requires Filter(CsvErrors(check, rows[..|rows| - 1], schema), At(k + 2, schema[j].name)) == check(rows[k], k + 2, schema[j])
    ensures Filter(CsvErrors(check, rows, schema), At(k + 2, schema[j].name)) == check(rows[k], k + 2, schema[j])
  {
    var n := |rows| - 1;
    var front := CsvErrors(check, rows[..n], schema);
    var last := RowErrors(check, rows[n], n + 2, schema);
    assert CsvErrors(check, rows, schema) == front + last;
    var at := At(k + 2, schema[j].name);
    OtherRowNone(check, rows[n], n + 2, schema, k + 2, schema[j].name, last, at);
    FilterNoneRight(front, last, at);
  }

  /** Earlier rows add nothing for the last row's number. */
  lemma CsvErrorsAtLast(check: (Row, int, Field) -> seq<CellError>, rows: seq<Row>, schema: seq<Field>, j: nat)
    requires Tagged(check) && DistinctNames(schema) && 0 < |rows| && j < |schema|
    ensures var n := |rows| - 1; Filter(CsvErrors(check, rows, schema), At(n + 2, schema[j].name)) == check(rows[n], n + 2, schema[j])
  {
    var n := |rows| - 1;
    var at := At(n + 2, schema[j].name);
    var front := CsvErrors(check, rows[..n], schema);
    var last := RowErrors(check, rows[n], n + 2, schema);
    assert CsvErrors(check, rows, schema) == front + last;
    EarlierRowsNone(check, rows[..n], schema, n + 2, schema[j].name);
    RowErrorsAt(check, rows[n], n + 2, schema, j);
    FilterNoneLeft(front, last, at);
  }

  lemma OtherRowNone(check: (Row, int, Field) -> seq<CellError>, row: Row, i: int, schema: seq<Field>, i': int, name: string,
                      es: seq<CellError>, at: CellError -> bool)
    requires Tagged(check) && i != i' && es == RowErrors(check, row, i, schema) && at == At(i', name)
    ensures Filter(es, at) == []
  {
    RowErrorsRow(check, row, i, schema);
    FilterAllOrNone(es, at);
  }

  lemma EarlierRowsNone(check: (Row, int, Field) -> seq<CellError>, rows: seq<Row>, schema: seq<Field>, i: int, name: string)
    requires Tagged(check) && i >= |rows| + 2
    ensures Filter(CsvErrors(check, rows, schema), At(i, name)) == []
  {
    CsvErrorsRows(check, rows, schema);
    FilterAllOrNone(CsvErrors(check, rows, schema), At(i, name));
  }

  /** A blank required cell gives exactly one error for its row and column, and no type error. */
  lemma MissingReportedOnce(rows: seq<Row>, schema: seq<Field>, k: nat, j: nat)
    requires DistinctNames(schema) && k < |rows| && j < |schema|
    requires schema[j].required && Blank(rows[k], schema[j].name)
    ensures Filter(CsvErrors(FieldCheck(), rows, schema), At(k + 2, schema[j].name))
      == [CellError(k + 2, schema[j].name, Missing)]
  {
    FieldCheckTagged();
    CsvErrorsAt(FieldCheck(), rows, schema, k, j);
  }

  /** Every error lies in a data row: row numbers run from 2 to the number of rows plus one. */
  lemma ErrorRowsInRange(rows: seq<Row>, schema: seq<Field>)
    ensures forall k :: 0 <= k < |CsvErrors(FieldCheck(), rows, schema)| ==>
      2 <= CsvErrors(FieldCheck(), rows, schema)[k].row < |rows| + 2
  {
    FieldCheckTagged();
    CsvErrorsRows(FieldCheck(), rows, schema);
  }

  /** The file is valid exactly when every column of every row passes its check. */
  lemma {:induction false} CsvValid(check: (Row, int, Field) -> seq<CellError>, rows: seq<Row>, schema: seq<Field>)
    ensures CsvErrors(check, rows, schema) == [] <==>
      forall k, j :: 0 <= k < |rows| && 0 <= j < |schema| ==> check(rows[k], k + 2, schema[j]) == []
  {
    if rows != [] {
      var n := |rows| - 1;
      CsvValid(check, rows[..n], schema);
      RowValid(check, rows[n], n + 2, schema);
      assert forall k :: 0 <= k < n ==> rows[..n][k] == rows[k];
    }
  }

  lemma {:induction false} RowValid(check: (Row, int, Field) -> seq<CellError>, row: Row, i: int, schema: seq<Field>)
    ensures RowErrors(check, row, i, schema) == [] <==> forall j :: 0 <= j < |schema| ==> check(row, i, schema[j]) == []
  {
    if schema != [] {
      var m := |schema| - 1;
      RowValid(check, row, i, schema[..m]);
      assert forall j :: 0 <= j < m ==> schema[..m][j] == schema[j];
    }
  }

  /**
   * The row loop of `validate_csv_data(file_path, schema)`: for each row from
   * row 2, each schema column in order; `valid` is whether no error was found.
   */
  method ValidateCsvData(rows: seq<Row>, schema: seq<Field>) returns (valid: bool, errors: seq<CellError>)
    ensures errors == CsvErrors(FieldCheck(), rows, schema)
    ensures valid <==> errors == []
  {
    var check := FieldCheck();
    errors := [];
    for n := 0 to |rows|
      invariant errors == CsvErrors(check, rows[..n], schema)
    {
      var row := rows[n];
      ghost var before := errors;
      for m := 0 to |schema|
        invariant errors == before + RowErrors(check, row, n + 2, schema[..m])
      {
        assert schema[..m + 1][..m] == schema[..m];
        errors := errors + FieldErrors(row, n + 2, schema[m]);
      }
      assert schema[..|schema|] == schema;
      assert rows[..n + 1][..n] == rows[..n] && rows[..n + 1][n] == row;
    }
    assert rows[..|rows|] == rows;
    valid := |errors| == 0;
  }

  // ----- the default schemas -----

  const ProjectsSchema: seq<Field> := [
    Field("Project_ID", StringField, true),
    Field("Project_Name", StringField, true),
    Field("Start_Date", DateField, true),
    Field("Last_Review_Date", DateField, true),
    Field("Review_Frequency_Years", DecimalField, true),
    Field("Department", StringField, true)]

  const UsersSchema: seq<Field> := [
    Field("User_ID", StringField, true),
    Field("Name", StringField, true),
    Field("Email", StringField, true),
    Field("Department", StringField, true)]

  const ReviewsSchema: seq<Field> := [
    Field("Review_ID", StringField, true),
    Field("Project_ID", StringField, true),
    Field("Reviewer_ID", StringField, true),
    Field("Scheduled_Date", DateField, true),
    Field("Status", StringField, true)]

  predicate Contains(s: string, part: string)
  {
    exists i :: 0 <= i <= |s| - |part| && part <= s[i..]
  }

  /**
   * The schema chosen from the file name when none is given: the first of
   * "Projects", "Users", "Reviews" the name contains. Every default schema
   * names each column once.
   */
  function SchemaFor(fileName: string): (r: Option<seq<Field>>)
    ensures r.Some? ==> DistinctNames(r.value) && |r.value| >= 4
    ensures r.Some? <==> Contains(fileName, "Projects") || Contains(fileName, "Users") || Contains(fileName, "Reviews")
  {
    if Contains(fileName, "Projects") then Some(ProjectsSchema)
    else if Contains(fileName, "Users") then Some(UsersSchema)
    else if Contains(fileName, "Reviews") then Some(ReviewsSchema)
    else None
  }

  // ----- references between the files -----

  datatype RefField = ProjectRef | ReviewerRef

  /** An entry of `errors`: the review's row, which reference is dangling, and the id it names. */
  datatype RefError = RefError(row: int, field: RefField, id: string)

  function ProjectIds(projects: seq<Project>): set<string>
  {
    set p | p in projects :: p.id
  }

  function UserIds(users: seq<User>): set<string>
  {
    set u | u in users :: u.id
  }

  /** The errors of one review in row `i`: its project reference first, then its reviewer. */
  function ReviewRefErrors(r: Review, i: int, pids: set<string>, uids: set<string>): seq<RefError>
  {
    (if r.projectId !in pids then [RefError(i, ProjectRef, r.projectId)] else [])
    + (if r.reviewerId !in uids then [RefError(i, ReviewerRef, r.reviewerId)] else [])
  }

  function RefErrors(reviews: seq<Review>, pids: set<string>, uids: set<string>): seq<RefError>
  {
    if reviews == [] then []
    else
      var n := |reviews| - 1;
      RefErrors(reviews[..n], pids, uids) + ReviewRefErrors(reviews[n], n + 2, pids, uids)
  }

  /** Each error points at a review (rows start at 2) whose named id is missing. */
  lemma {:induction false} RefErrorsSound(reviews: seq<Review>, pids: set<string>, uids: set<string>)
    ensures forall e :: e in RefErrors(reviews, pids, uids) ==>
      && 2 <= e.row < |reviews| + 2
      && (e.field == ProjectRef ==> e.id == reviews[e.row - 2].projectId && e.id !in pids)
      && (e.field == ReviewerRef ==> e.id == reviews[e.row - 2].reviewerId && e.id !in uids)
  {
    if reviews != [] {
      var n := |reviews| - 1;
      var front := RefErrors(reviews[..n], pids, uids);
      var last := ReviewRefErrors(reviews[n], n + 2, pids, uids);
      RefErrorsSound(reviews[..n], pids, uids);
      assert RefErrors(reviews, pids, uids) == front + last;
      forall e: RefError | e in front + last
        ensures 2 <= e.row < |reviews| + 2
        ensures e.field == ProjectRef ==> e.id == reviews[e.row - 2].projectId && e.id !in pids
        ensures e.field == ReviewerRef ==> e.id == reviews[e.row - 2].reviewerId && e.id !in uids
      {
        if e in front {
          assert reviews[..n][e.row - 2] == reviews[e.row - 2];
        }
      }
    }
  }

  /** Every missing project or user id is reported for its row. */
  lemma {:induction false} RefErrorsComplete(reviews: seq<Review>, pids: set<string>, uids: set<string>)
    ensures forall i :: 0 <= i < |reviews| ==>
      && (reviews[i].projectId !in pids ==> RefError(i + 2, ProjectRef, reviews[i].projectId) in RefErrors(reviews, pids, uids))
      && (reviews[i].reviewerId !in uids ==> RefError(i + 2, ReviewerRef, reviews[i].reviewerId) in RefErrors(reviews, pids, uids))
  {
    if reviews != [] {
      var n := |reviews| - 1;
      var front := RefErrors(reviews[..n], pids, uids);
      var last := ReviewRefErrors(reviews[n], n + 2, pids, uids);
      RefErrorsComplete(reviews[..n], pids, uids);
      assert RefErrors(reviews, pids, uids) == front + last;
      forall i | 0 <= i < |reviews|
        ensures reviews[i].projectId !in pids ==> RefError(i + 2, ProjectRef, reviews[i].projectId) in front + last
        ensures reviews[i].reviewerId !in uids ==> RefError(i + 2, ReviewerRef, reviews[i].reviewerId) in front + last
      {
        if i < n {
          assert reviews[..n][i] == reviews[i];
        }
      }
    }
  }

  /** There is nothing to report exactly when every review's references resolve. */
  lemma {:induction false} RefErrorsNone(reviews: seq<Review>, pids: set<string>, uids: set<string>)
    ensures RefErrors(reviews, pids, uids) == [] <==>
      forall i :: 0 <= i < |reviews| ==> reviews[i].projectId in pids && reviews[i].reviewerId in uids
  {
    if reviews != [] {
      var n := |reviews| - 1;
      RefErrorsNone(reviews[..n], pids, uids);
      assert forall i :: 0 <= i < n ==> reviews[..n][i] == reviews[i];
    }
  }

  /** One error per dangling reference: the count is the missing projects plus the missing reviewers. */
  lemma {:induction false} RefErrorsCount(reviews: seq<Review>, pids: set<string>, uids: set<string>)
    ensures |RefErrors(reviews, pids, uids)| == MissingCount(reviews, pids, uids)
  {
    if reviews != [] {
      RefErrorsCount(reviews[..|reviews| - 1], pids, uids);
    }
  }

  function MissingCount(reviews: seq<Review>, pids: set<string>, uids: set<string>): nat
  {
    if reviews == [] then 0
    else
      var r := reviews[|reviews| - 1];
      MissingCount(reviews[..|reviews| - 1], pids, uids)
        + (if r.projectId !in pids then 1 else 0) + (if r.reviewerId !in uids then 1 else 0)
  }

  /**
   * `validate_referential_integrity()`: reads the three default files, then
   * checks each review from row 2 on against the sets of project and user ids.
   */
  method ValidateReferentialIntegrity(store: Store) returns (valid: bool, errors: seq<RefError>)
    ensures errors == RefErrors(store.reviews, ProjectIds(store.projects), UserIds(store.users[..]))
    ensures valid <==> errors == []
  {
    var pids := ProjectIds(store.projects);
    var uids := UserIds(store.users[..]);
    var reviews := store.reviews;
    errors := [];
    for n := 0 to |reviews|
      invariant errors == RefErrors(reviews[..n], pids, uids)
    {
      var r := reviews[n];
      if r.projectId !in pids {
        errors := errors + [RefError(n + 2, ProjectRef, r.projectId)];
      }
      if r.reviewerId !in uids {
        errors := errors + [RefError(n + 2, ReviewerRef, r.reviewerId)];
      }
      assert reviews[..n + 1][..n] == reviews[..n];
    }
    assert reviews[..|reviews|] == reviews;
    valid := |errors| == 0;
  }
}
