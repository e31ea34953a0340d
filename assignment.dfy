/**
 * The assignment engine: a reviewer is picked for a project by workload,
 * preferring another department, the pick's load is raised in the shared
 * reviewer list, the users file is updated and a "Scheduled" review appended.
 */
module Assignment {
  import opened Wrappers
  import opened Text
  import opened Records
  import opened RecordStore
  import opened Sorting

  // ----- loads -----

  /** `int(reviewer['Current_Load'])`, with the `ValueError` of unreadable text taken as 0. */
  function LoadValue(l: Load): int
  {
    match l
    case Count(n) => n
    case Text(raw) =>
      match ParseInt(raw)
      case Some(n) => n
      case None => 0
  }

  /** A load the step stored back, written to the users file and read again, keeps its value. */
  lemma LoadValueWritten(n: int)
    ensures LoadValue(Text(IntToString(n))) == LoadValue(Count(n)) == n
  {
    IntToStringRoundTrip(n);
  }

  /** Text without a digit, such as "" or "n/a", counts as an idle reviewer. */
  lemma LoadValueUnreadable(raw: string)
    requires forall i :: 0 <= i < |raw| ==> !IsDigit(raw[i])
    ensures LoadValue(Text(raw)) == 0
  {
    ParseIntNoDigits(raw);
  }

  /** The reviewer with the load coerced in place. */
  function Coerce(u: User): User
  {
    u.(load := Count(LoadValue(u.load)))
  }

  function Coerced(pool: seq<User>): (r: seq<User>)
    ensures |r| == |pool|
  {
    seq(|pool|, i requires 0 <= i < |pool| => Coerce(pool[i]))
  }

  function Loads(pool: seq<User>): (r: seq<int>)
    ensures |r| == |pool|
  {
    seq(|pool|, i requires 0 <= i < |pool| => LoadValue(pool[i].load))
  }

  function Departments(pool: seq<User>): (r: seq<string>)
    ensures |r| == |pool|
  {
    seq(|pool|, i requires 0 <= i < |pool| => pool[i].department)
  }

  /** Coercing changes neither the loads as numbers nor the departments. */
  lemma CoercedSame(pool: seq<User>)
    ensures Loads(Coerced(pool)) == Loads(pool)
    ensures Departments(Coerced(pool)) == Departments(pool)
  {
  }

  // ----- the order by load -----

  /** The positions `0 .. n - 1` of a list, in order. */
  function Range(n: nat): (r: seq<nat>)
    ensures |r| == n
    ensures forall i :: 0 <= i < n ==> r[i] == i
  {
    seq(n, i requires 0 <= i < n => i as nat)
  }

  function LoadAt(loads: seq<int>, i: nat): int
  {
    if i < |loads| then loads[i] else 0
  }

  function LoadKey(loads: seq<int>): nat -> int
  {
    (i: nat) => LoadAt(loads, i)
  }

  const IntLe: (int, int) -> bool := (a, b) => a <= b

  /** `sorted(reviewers, key=lambda r: r['Current_Load'])`, as positions in the list. */
  function ByLoad(loads: seq<int>): (r: seq<nat>)
    ensures |r| == |loads|
  {
    SortBy(Range(|loads|), LoadKey(loads), IntLe)
  }

  /** Reviewer `a` comes before `b`: a smaller load, or the same load and earlier in the list. */
  predicate Before(loads: seq<int>, a: nat, b: nat)
  {
    LoadAt(loads, a) < LoadAt(loads, b) || (LoadAt(loads, a) == LoadAt(loads, b) && a < b)
  }

  predicate LoadOrdered(order: seq<nat>, loads: seq<int>)
  {
    forall i, j :: 0 <= i < j < |order| ==> Before(loads, order[i], order[j])
  }

  lemma {:induction false} InsertOrdered(x: nat, t: seq<nat>, loads: seq<int>)
    requires LoadOrdered(t, loads)
    requires forall j :: 0 <= j < |t| ==> x < t[j]
    ensures LoadOrdered(Insert(x, t, LoadKey(loads), IntLe), loads)
  {
    if t == [] || LoadAt(loads, x) <= LoadAt(loads, t[0]) {
      var r := [x] + t;
      forall i, j | 0 <= i < j < |r| ensures Before(loads, r[i], r[j]) {
        if i > 0 {
          assert r[i] == t[i - 1] && r[j] == t[j - 1];
        } else if j > 1 {
          assert Before(loads, t[0], t[j - 1]);
        }
      }
    } else {
      var t' := t[1..];
      var b := t[0];
      InsertOrdered(x, t', loads);
      InsertAll(x, t', LoadKey(loads), IntLe, y => Before(loads, b, y));
      var r := Insert(x, t', LoadKey(loads), IntLe);
      var full := [b] + r;
      assert Insert(x, t, LoadKey(loads), IntLe) == full;
      forall i, j | 0 <= i < j < |full| ensures Before(loads, full[i], full[j]) {
        if i > 0 {
          assert full[i] == r[i - 1] && full[j] == r[j - 1];
        }
      }
    }
  }

  /** Sorting positions given in increasing order is stable: equal loads keep their list order. */
  lemma {:induction false} SortByOrdered(s: seq<nat>, loads: seq<int>)
    requires forall i, j :: 0 <= i < j < |s| ==> s[i] < s[j]
    ensures LoadOrdered(SortBy(s, LoadKey(loads), IntLe), loads)
  {
    if s != [] {
      var x := s[0];
      SortByOrdered(s[1..], loads);
      SortByAll(s[1..], LoadKey(loads), IntLe, y => x < y);
      InsertOrdered(x, SortBy(s[1..], LoadKey(loads), IntLe), loads);
    }
  }

  /** The order lists every position of the reviewer list, and only those. */
  lemma ByLoadPositions(loads: seq<int>)
    ensures LoadOrdered(ByLoad(loads), loads)
    ensures forall q :: 0 <= q < |loads| ==> ByLoad(loads)[q] < |loads|
    ensures forall j :: 0 <= j < |loads| ==> j in ByLoad(loads)
  {
    var n := |loads|;
    SortByOrdered(Range(n), loads);
    SortByAll(Range(n), LoadKey(loads), IntLe, y => y < n);
    forall j | 0 <= j < n ensures j in ByLoad(loads) {
      assert Range(n)[j] == j;
      assert j in multiset(Range(n));
    }
  }

  // ----- the choice -----

  predicate IsOther(i: nat, depts: seq<string>, dept: string)
  {
    i < |depts| && depts[i] != dept
  }

  /**
   * `[r for r in reviewers_sorted if r.get('Department') != project_dept]`, first
   * element: the first position in `order` naming a reviewer of another department.
   */
  function FirstOther(order: seq<nat>, depts: seq<string>, dept: string): (r: Option<nat>)
    ensures r.Some? ==> r.value < |order| && IsOther(order[r.value], depts, dept)
    ensures r.Some? ==> forall q :: 0 <= q < r.value ==> !IsOther(order[q], depts, dept)
    ensures r.None? ==> forall q :: 0 <= q < |order| ==> !IsOther(order[q], depts, dept)
  {
    if order == [] then None
    else if IsOther(order[0], depts, dept) then Some(0)
    else match FirstOther(order[1..], depts, dept) {
      case None => None
      case Some(q) => Some(q + 1)
    }
  }

  /** The pick from the reviewers in load order: the first of another department, else the first. */
  function PickIn(order: seq<nat>, depts: seq<string>, dept: string): nat
    requires order != []
  {
    match FirstOther(order, depts, dept)
    case Some(q) => order[q]
    case None => order[0]
  }

  /**
   * The reviewer `assign_reviewer` picks: the first of another department in
   * load order, else the first in load order; none from an empty list.
   */
  function Choose(pool: seq<User>, dept: string): (r: Option<nat>)
    ensures r.Some? <==> pool != []
    ensures r.Some? ==> r.value < |pool|
  {
    if pool == [] then None
    else
      ByLoadPositions(Loads(pool));
      Some(PickIn(ByLoad(Loads(pool)), Departments(pool), dept))
  }

  /** `PickIn` over any load order that lists every reviewer once: the least by `Before` among the eligible. */
  lemma PickInSpec(order: seq<nat>, l: seq<int>, depts: seq<string>, dept: string)
    requires order != [] && |depts| == |l|
    requires LoadOrdered(order, l)
    requires forall j :: 0 <= j < |l| ==> j in order
    requires forall q :: 0 <= q < |order| ==> order[q] < |l|
    ensures var c := PickIn(order, depts, dept);
      && c < |l|
      && ((exists j :: 0 <= j < |l| && depts[j] != dept) ==> depts[c] != dept)
      && (depts[c] != dept ==> forall j :: 0 <= j < |l| && depts[j] != dept ==> c == j || Before(l, c, j))
      && (depts[c] == dept ==> forall j :: 0 <= j < |l| ==> depts[j] == dept && (c == j || Before(l, c, j)))
  {
    var c := PickIn(order, depts, dept);
    match FirstOther(order, depts, dept) {
      case Some(p) =>
        forall j | 0 <= j < |l| && depts[j] != dept ensures c == j || Before(l, c, j) {
          var q := PositionIn(order, j);
          assert IsOther(order[q], depts, dept);
          if q != p {
            assert Before(l, order[p], order[q]);
          }
        }
      case None =>
        forall j | 0 <= j < |l| ensures depts[j] == dept && (c == j || Before(l, c, j)) {
          var q := PositionIn(order, j);
          assert !IsOther(order[q], depts, dept);
          if q != 0 {
            assert Before(l, order[0], order[q]);
          }
        }
    }
  }

  /**
   * The pick has the least load among the reviewers of other departments, and
   * the earliest position among those with that load. Only when every
   * reviewer shares the project's department is it the least loaded overall,
   * again the earliest on ties.
   */
  lemma ChooseSpec(pool: seq<User>, dept: string)
    requires pool != []
    ensures var c := Choose(pool, dept).value; var l := Loads(pool);
      && ((exists j :: 0 <= j < |pool| && pool[j].department != dept) ==> pool[c].department != dept)
      && (pool[c].department != dept ==> forall j :: 0 <= j < |pool| && pool[j].department != dept ==>
            l[c] < l[j] || (l[c] == l[j] && c <= j))
      && (pool[c].department == dept ==> forall j :: 0 <= j < |pool| ==>
            pool[j].department == dept && (l[c] < l[j] || (l[c] == l[j] && c <= j)))
  {
    var l, depts := Loads(pool), Departments(pool);
    ByLoadPositions(l);
    PickInSpec(ByLoad(l), l, depts, dept);
    var c := Choose(pool, dept).value;
    assert forall j :: 0 <= j < |pool| ==> depts[j] == pool[j].department;
    assert forall j :: 0 <= j < |pool| ==> LoadAt(l, j) == l[j];
  }

  /** Where `j` sits in `order`. */
  lemma {:induction false} PositionIn(order: seq<nat>, j: nat) returns (q: nat)
    requires j in order
    ensures q < |order| && order[q] == j
  {
    if order[0] == j {
      q := 0;
    } else {
      assert j in order[1..];
      q := PositionIn(order[1..], j);
      q := q + 1;
    }
  }

  // ----- one assignment -----

  /** The clock reads of one assignment: the `R<timestamp>` id and today + 30 days. */
  datatype Stamp = Stamp(reviewId: string, scheduledDate: string)

  /** Which write, if any, raises: `update_user` or `add_review`. */
  datatype Fault = NoFault | UserWriteFails | ReviewWriteFails

  datatype Outcome = Assigned(review: Review) | NoReviewer | Raised(fault: Fault)

  /** The shared reviewer list, the users file and the reviews file. */
  datatype World = World(pool: seq<User>, users: seq<User>, reviews: seq<Review>)

  datatype Step = Step(world: World, outcome: Outcome)

  function NewReview(p: Project, u: User, stamp: Stamp): Review
  {
    Review(stamp.reviewId, p.id, u.id, stamp.scheduledDate, Scheduled, "")
  }

  /** The list after the coercion loop and `assigned_reviewer['Current_Load'] += 1`. */
  function Bumped(pool: seq<User>, c: nat): (r: seq<User>)
    requires c < |pool|
    ensures |r| == |pool|
  {
    Coerced(pool)[c := pool[c].(load := Count(LoadValue(pool[c].load) + 1))]
  }

  /**
   * `assign_reviewer(project, reviewers)`: the load increment stays in the list
   * even when a later write raises; `update_user` then `add_review`.
   */
  function AssignStep(w: World, p: Project, stamp: Stamp, fault: Fault): (s: Step)
    ensures w.pool == [] ==> s == Step(w, NoReviewer)
    ensures |s.world.pool| == |w.pool|
    ensures !s.outcome.Assigned? ==> s.world.reviews == w.reviews
    ensures s.outcome.Assigned? ==> s.world.reviews == w.reviews + [s.outcome.review]
    ensures s.outcome.NoReviewer? <==> w.pool == []
  {
    if w.pool == [] then Step(w, NoReviewer)
    else
      var c := Choose(w.pool, p.department).value;
      var pool := Bumped(w.pool, c);
      if fault == UserWriteFails then Step(w.(pool := pool), Raised(fault))
      else
        var users := ReplaceFirst(w.users, pool[c]);
        if fault == ReviewWriteFails then Step(World(pool, users, w.reviews), Raised(fault))
        else
          var r := NewReview(p, pool[c], stamp);
          Step(World(pool, users, w.reviews + [r]), Assigned(r))
  }

  /**
   * Every load in the list becomes an integer and only the pick's grows, by
   * one; the users file gets the pick's row unless its write raised, and the
   * review names the project and the pick, "Scheduled" and not completed.
   */
  lemma AssignStepSpec(w: World, p: Project, stamp: Stamp, fault: Fault)
    requires w.pool != []
    ensures var c := Choose(w.pool, p.department).value; var s := AssignStep(w, p, stamp, fault);
      && (forall i :: 0 <= i < |w.pool| && i != c ==> s.world.pool[i] == w.pool[i].(load := Count(LoadValue(w.pool[i].load))))
      && s.world.pool[c] == w.pool[c].(load := Count(LoadValue(w.pool[c].load) + 1))
      && (fault == UserWriteFails ==> s.world.users == w.users && s.outcome == Raised(fault))
      && (fault != UserWriteFails ==> s.world.users == ReplaceFirst(w.users, s.world.pool[c]))
      && (fault == ReviewWriteFails ==> s.outcome == Raised(fault))
      && (fault == NoFault ==> s.outcome == Assigned(Review(stamp.reviewId, p.id, w.pool[c].id, stamp.scheduledDate, Scheduled, "")))
  {
  }

  function Total(loads: seq<int>): int
  {
    if loads == [] then 0 else Total(loads[..|loads| - 1]) + loads[|loads| - 1]
  }

  lemma {:induction false} TotalUpdate(loads: seq<int>, i: nat, v: int)
    requires i < |loads|
    ensures Total(loads[i := v]) == Total(loads) - loads[i] + v
  {
    var n := |loads| - 1;
    var u := loads[i := v];
    assert u[..n] == if i < n then loads[..n][i := v] else loads[..n];
    if i < n {
      TotalUpdate(loads[..n], i, v);
    }
  }

  /** One attempt on a non-empty list raises the summed load by exactly one, whatever raises after. */
  lemma AssignStepTotal(w: World, p: Project, stamp: Stamp, fault: Fault)
    requires w.pool != []
    ensures Total(Loads(AssignStep(w, p, stamp, fault).world.pool)) == Total(Loads(w.pool)) + 1
  {
    var c := Choose(w.pool, p.department).value;
    var l := Loads(w.pool);
    CoercedSame(w.pool);
    assert Loads(Bumped(w.pool, c)) == l[c := l[c] + 1];
    TotalUpdate(l, c, l[c] + 1);
  }

  /**
   * `assign_reviewer`: coerces every load in the caller's list in place, picks,
   * raises the pick's load, then writes the users file and the reviews file.
   */
  method AssignReviewer(p: Project, pool: array<User>, store: Store, stamp: Stamp, fault: Fault) returns (out: Outcome)
    requires pool != store.users
    modifies pool, store, store.users
    ensures Step(World(pool[..], store.users[..], store.reviews), out)
      == AssignStep(World(old(pool[..]), old(store.users[..]), old(store.reviews)), p, stamp, fault)
    ensures store.projects == old(store.projects)
  {
    if pool.Length == 0 {
      return NoReviewer;
    }
    ghost var before := pool[..];
    var loads := CoerceLoads(pool);
    CoercedSame(before);
    var order := ByLoad(loads);
    ByLoadPositions(loads);
    var c := PickIn(order, Departments(pool[..]), p.department);
    pool[c] := pool[c].(load := Count(loads[c] + 1));
    assert pool[..] == Bumped(before, c);
    if fault == UserWriteFails {
      return Raised(fault);
    }
    store.UpdateUser(pool[c]);
    if fault == ReviewWriteFails {
      return Raised(fault);
    }
    var review := NewReview(p, pool[c], stamp);
    store.AddReview(review);
    return Assigned(review);
  }

  /** The loop that rewrites every `Current_Load` of the list as an integer; returns the loads. */
  method CoerceLoads(pool: array<User>) returns (loads: seq<int>)
    modifies pool
    ensures loads == Loads(old(pool[..])) && pool[..] == Coerced(old(pool[..]))
  {
    ghost var before := pool[..];
    loads := [];
    for i := 0 to pool.Length
      invariant loads == Loads(before)[..i]
      invariant pool[..i] == Coerced(before)[..i]
      invariant pool[i..] == before[i..]
    {
      var n := LoadValue(pool[i].load);
      pool[i] := pool[i].(load := Count(n));
      loads := loads + [n];
    }
  }

  /**
   * `assign_reviewer_enhanced`: the same choice made on copies of the reviewer
   * rows, so the caller's list keeps its loads; a write that raises gives `None`.
   */
  method AssignReviewerEnhanced(p: Project, pool: array<User>, store: Store, stamp: Stamp, fault: Fault)
    returns (r: Option<Review>)
    modifies store, store.users
    ensures pool != store.users ==> pool[..] == old(pool[..])
    ensures var s := AssignStep(World(old(pool[..]), old(store.users[..]), old(store.reviews)), p, stamp, fault);
      && store.users[..] == s.world.users && store.reviews == s.world.reviews
      && r == (if s.outcome.Assigned? then Some(s.outcome.review) else None)
    ensures store.projects == old(store.projects)
  {
    var copies := new User[pool.Length](i requires 0 <= i < pool.Length reads pool => pool[i]);
    assert copies[..] == pool[..];
    var out := AssignReviewer(p, copies, store, stamp, fault);
    r := if out.Assigned? then Some(out.review) else None;
  }

  // ----- the batch -----

  datatype FailReason = NoAvailableReviewers | AssignmentError(fault: Fault)

  datatype Failure = Failure(projectId: string, reason: FailReason)

  datatype Run = Run(world: World, assignments: seq<Review>, failures: seq<Failure>)

  /**
   * The loop of `assign_all_reviewers`: each project in turn against the one
   * shared reviewer list; `None` and a raised error become failures.
   */
  function RunBatch(w: World, ps: seq<Project>, stamps: nat -> Stamp, faults: nat -> Fault): Run
  {
    if ps == [] then Run(w, [], [])
    else
      var k := |ps| - 1;
      var prev := RunBatch(w, ps[..k], stamps, faults);
      Extend(prev, ps[k], AssignStep(prev.world, ps[k], stamps(k), faults(k)))
  }

  /** One turn of the loop: the review is kept, or the project is listed with its reason. */
  function Extend(prev: Run, p: Project, s: Step): Run
  {
    match s.outcome
    case Assigned(r) => Run(s.world, prev.assignments + [r], prev.failures)
    case NoReviewer => Run(s.world, prev.assignments, prev.failures + [Failure(p.id, NoAvailableReviewers)])
    case Raised(f) => Run(s.world, prev.assignments, prev.failures + [Failure(p.id, AssignmentError(f))])
  }

  lemma RunBatchNext(w: World, ps: seq<Project>, k: nat, stamps: nat -> Stamp, faults: nat -> Fault)
    requires k < |ps|
    ensures var prev := RunBatch(w, ps[..k], stamps, faults);
      RunBatch(w, ps[..k + 1], stamps, faults) == Extend(prev, ps[k], AssignStep(prev.world, ps[k], stamps(k), faults(k)))
  {
    assert ps[..k + 1][..k] == ps[..k];
  }

  /**
   * Every attempted project ends up either assigned or failed, and the reviews
   * file grows by exactly the assignments, in order.
   */
  lemma {:induction false} RunBatchAccounts(w: World, ps: seq<Project>, stamps: nat -> Stamp, faults: nat -> Fault)
    ensures var r := RunBatch(w, ps, stamps, faults);
      && |r.assignments| + |r.failures| == |ps|
      && r.world.reviews == w.reviews + r.assignments
      && |r.world.pool| == |w.pool|
  {
    if ps != [] {
      var k := |ps| - 1;
      RunBatchAccounts(w, ps[..k], stamps, faults);
      var prev := RunBatch(w, ps[..k], stamps, faults);
      var st := AssignStep(prev.world, ps[k], stamps(k), faults(k));
      assert RunBatch(w, ps, stamps, faults) == Extend(prev, ps[k], st);
      ExtendAccounts(prev, ps[k], st, w.reviews);
    }
  }

  lemma ExtendAccounts(prev: Run, p: Project, st: Step, base: seq<Review>)
    requires prev.world.reviews == base + prev.assignments
    requires !st.outcome.Assigned? ==> st.world.reviews == prev.world.reviews
    requires st.outcome.Assigned? ==> st.world.reviews == prev.world.reviews + [st.outcome.review]
    ensures var r := Extend(prev, p, st);
      && |r.assignments| + |r.failures| == |prev.assignments| + |prev.failures| + 1
      && r.world.reviews == base + r.assignments
      && r.world.pool == st.world.pool
  {
  }

  /** With no reviewers nothing is assigned or written, and every project fails for that reason. */
  lemma {:induction false} RunBatchEmptyPool(w: World, ps: seq<Project>, stamps: nat -> Stamp, faults: nat -> Fault)
    requires w.pool == []
    ensures var r := RunBatch(w, ps, stamps, faults);
      && r.world == w && r.assignments == []
      && |r.failures| == |ps|
      && forall i :: 0 <= i < |ps| ==> r.failures[i] == Failure(ps[i].id, NoAvailableReviewers)
  {
    if ps != [] {
      RunBatchEmptyPool(w, ps[..|ps| - 1], stamps, faults);
    }
  }

  /**
   * Later picks see earlier increments: with reviewers available, the loads
   * in the shared list sum to their starting sum plus one per project.
   */
  lemma {:induction false} RunBatchTotal(w: World, ps: seq<Project>, stamps: nat -> Stamp, faults: nat -> Fault)
    requires w.pool != []
    ensures Total(Loads(RunBatch(w, ps, stamps, faults).world.pool)) == Total(Loads(w.pool)) + |ps|
  {
    if ps != [] {
      var k := |ps| - 1;
      RunBatchTotal(w, ps[..k], stamps, faults);
      RunBatchAccounts(w, ps[..k], stamps, faults);
      var prev := RunBatch(w, ps[..k], stamps, faults);
      AssignStepTotal(prev.world, ps[k], stamps(k), faults(k));
    }
  }

  // ----- selection -----

  /** `Project_ID`s with a "Scheduled" or "In Progress" review. */
  function ActiveIds(reviews: seq<Review>): set<string>
  {
    set r | r in reviews && IsActive(r) :: r.projectId
  }

  function NeedsReviewFn(): Project -> bool
  {
    (p: Project) => NeedsReview(p)
  }

  function Free(active: set<string>): Project -> bool
  {
    (p: Project) => p.id !in active
  }

  function Taken(active: set<string>): Project -> bool
  {
    (p: Project) => p.id in active
  }

  /** `projects_to_assign`: projects needing review whose id has no active review. */
  function ToAssign(projects: seq<Project>, reviews: seq<Review>): seq<Project>
  {
    Filter(Filter(projects, NeedsReviewFn()), Free(ActiveIds(reviews)))
  }

  /**
   * Only "Overdue"/"Due Soon" projects with no active review are attempted, and
   * `already_assigned` (needing minus attempted) counts exactly the needing
   * projects that have an active review.
   */
  lemma ToAssignSpec(projects: seq<Project>, reviews: seq<Review>)
    ensures var t := ToAssign(projects, reviews);
      forall i :: 0 <= i < |t| ==>
        && t[i] in projects && NeedsReview(t[i])
        && (forall r :: r in reviews && IsActive(r) ==> r.projectId != t[i].id)
    ensures var needing := Filter(projects, NeedsReviewFn());
      |needing| - |ToAssign(projects, reviews)| == |Filter(needing, Taken(ActiveIds(reviews)))|
  {
    var needing := Filter(projects, NeedsReviewFn());
    var active := ActiveIds(reviews);
    FilterSplit(needing, Free(active), Taken(active));
    var t := ToAssign(projects, reviews);
    forall i | 0 <= i < |t|
      ensures t[i] in projects && NeedsReview(t[i])
      ensures forall r :: r in reviews && IsActive(r) ==> r.projectId != t[i].id
    {
      assert t[i] in t;
      assert t[i] in needing && t[i].id !in active;
    }
  }

  datatype Summary = Summary(
    totalAssigned: nat,
    totalNeedingReview: nat,
    alreadyAssigned: int,
    failedAssignments: nat,
    assignments: seq<Review>,
    failures: seq<Failure>)

  /**
   * `assign_all_reviewers(projects_file, users_file, reviews_file)`: the three
   * files are read once, each project to assign is attempted against the same
   * reviewer list, and a raised write is caught as a failure.
   */
  method AssignAllReviewers(store: Store, stamps: nat -> Stamp, faults: nat -> Fault) returns (s: Summary)
    modifies store, store.users
    ensures var needing := Filter(old(store.projects), NeedsReviewFn());
      var toAssign := ToAssign(old(store.projects), old(store.reviews));
      var run := RunBatch(World(old(store.users[..]), old(store.users[..]), old(store.reviews)), toAssign, stamps, faults);
      && store.users[..] == run.world.users && store.reviews == run.world.reviews
      && s == Summary(|run.assignments|, |needing|, |needing| - |toAssign|, |run.failures|, run.assignments, run.failures)
    ensures store.projects == old(store.projects)
  {
    var pool := new User[store.users.Length](i requires 0 <= i < store.users.Length reads store.users => store.users[i]);
    assert pool[..] == store.users[..];
    var needing := Filter(store.projects, NeedsReviewFn());
    var toAssign := ToAssign(store.projects, store.reviews);
    var assignments, failures := AssignEach(toAssign, pool, store, stamps, faults);
    s := Summary(|assignments|, |needing|, |needing| - |toAssign|, |failures|, assignments, failures);
  }

  /** `for project in projects_to_assign`, catching what each attempt raises. */
  method AssignEach(ps: seq<Project>, pool: array<User>, store: Store, stamps: nat -> Stamp, faults: nat -> Fault)
    returns (assignments: seq<Review>, failures: seq<Failure>)
    requires pool != store.users
    modifies pool, store, store.users
    ensures RunBatch(World(old(pool[..]), old(store.users[..]), old(store.reviews)), ps, stamps, faults)
      == Run(World(pool[..], store.users[..], store.reviews), assignments, failures)
    ensures store.projects == old(store.projects)
  {
    ghost var w := World(pool[..], store.users[..], store.reviews);
    assignments, failures := [], [];
    for k := 0 to |ps|
      invariant RunBatch(w, ps[..k], stamps, faults) == Run(World(pool[..], store.users[..], store.reviews), assignments, failures)
      invariant store.projects == old(store.projects)
    {
      RunBatchNext(w, ps, k, stamps, faults);
      var out := AssignReviewer(ps[k], pool, store, stamps(k), faults(k));
      match out {
        case Assigned(r) => assignments := assignments + [r];
        case NoReviewer => failures := failures + [Failure(ps[k].id, NoAvailableReviewers)];
        case Raised(f) => failures := failures + [Failure(ps[k].id, AssignmentError(f))];
      }
    }
    assert ps[..|ps|] == ps;
  }

  // ----- the notebook batch -----

  datatype Halt = Halt(world: World, assignments: seq<Review>, raised: Option<Fault>)

  /**
   * The notebook's loop: `None` is dropped silently and nothing is caught, so
   * the first raised write ends the whole call with what was written so far.
   */
  function RunUntilRaise(w: World, ps: seq<Project>, stamps: nat -> Stamp, faults: nat -> Fault): Halt
  {
    if ps == [] then Halt(w, [], None)
    else
      var k := |ps| - 1;
      var prev := RunUntilRaise(w, ps[..k], stamps, faults);
      if prev.raised.Some? then prev
      else Resume(prev, AssignStep(prev.world, ps[k], stamps(k), faults(k)))
  }

  /** One turn of the notebook's loop. */
  function Resume(prev: Halt, s: Step): Halt
  {
    match s.outcome
    case Assigned(r) => Halt(s.world, prev.assignments + [r], None)
    case NoReviewer => Halt(s.world, prev.assignments, None)
    case Raised(f) => Halt(s.world, prev.assignments, Some(f))
  }

  lemma RunUntilRaiseNext(w: World, ps: seq<Project>, k: nat, stamps: nat -> Stamp, faults: nat -> Fault)
    requires k < |ps| && RunUntilRaise(w, ps[..k], stamps, faults).raised.None?
    ensures var prev := RunUntilRaise(w, ps[..k], stamps, faults);
      RunUntilRaise(w, ps[..k + 1], stamps, faults) == Resume(prev, AssignStep(prev.world, ps[k], stamps(k), faults(k)))
  {
    assert ps[..k + 1][..k] == ps[..k];
  }

  /**
   * When no write raises, the notebook batch assigns exactly what the
   * scheduler's batch assigns and leaves the same files.
   */
  lemma {:induction false} RunUntilRaiseAgrees(w: World, ps: seq<Project>, stamps: nat -> Stamp, faults: nat -> Fault)
    requires forall k :: 0 <= k < |ps| ==> faults(k) == NoFault
    ensures var r := RunBatch(w, ps, stamps, faults);
      RunUntilRaise(w, ps, stamps, faults) == Halt(r.world, r.assignments, None)
  {
    if ps != [] {
      RunUntilRaiseAgrees(w, ps[..|ps| - 1], stamps, faults);
    }
  }

  /** `total_assigned <= len(projects_to_assign)`, the reviews file grows by the assignments, and an empty list assigns none. */
  lemma {:induction false} RunUntilRaiseBound(w: World, ps: seq<Project>, stamps: nat -> Stamp, faults: nat -> Fault)
    ensures var h := RunUntilRaise(w, ps, stamps, faults);
      && |h.assignments| <= |ps|
      && h.world.reviews == w.reviews + h.assignments
      && (w.pool == [] ==> h.assignments == [] && h.world == w && h.raised == None)
  {
    if ps != [] {
      RunUntilRaiseBound(w, ps[..|ps| - 1], stamps, faults);
    }
  }

  datatype QuietSummary = QuietSummary(
    totalAssigned: nat,
    totalNeedingReview: nat,
    alreadyAssigned: int,
    assignments: seq<Review>)

  /**
   * What the notebook's `assign_all_reviewers` returns once its loop has
   * stopped: the first fault, or the counts over the projects it read.
   */
  function QuietOutcome(projects: seq<Project>, reviews: seq<Review>, h: Halt): (r: Result<QuietSummary, Fault>)
    ensures r.Err? <==> h.raised.Some?
    ensures r.Err? ==> r.error == h.raised.value
    ensures r.Ok? ==> r.value.assignments == h.assignments && r.value.totalAssigned == |h.assignments|
    ensures r.Ok? ==> r.value.totalNeedingReview == |Filter(projects, NeedsReviewFn())|
    ensures r.Ok? ==> r.value.totalNeedingReview - r.value.alreadyAssigned == |ToAssign(projects, reviews)|
  {
    if h.raised.Some? then Err(h.raised.value)
    else
      var needing := |Filter(projects, NeedsReviewFn())|;
      Ok(QuietSummary(|h.assignments|, needing, needing - |ToAssign(projects, reviews)|, h.assignments))
  }

  /**
   * The notebook's `assign_all_reviewers`: reads the three named files
   * (`source`) but its `assign_reviewer` writes the default users and reviews
   * files (`defaults`), which are the same files only when the names are the
   * defaults.
   */
  method AssignAllReviewersQuiet(source: Store, defaults: Store, stamps: nat -> Stamp, faults: nat -> Fault)
    returns (r: Result<QuietSummary, Fault>)
    modifies defaults, defaults.users
    ensures var h := RunUntilRaise(World(old(source.users[..]), old(defaults.users[..]), old(defaults.reviews)),
                                   ToAssign(old(source.projects), old(source.reviews)), stamps, faults);
      && defaults.users[..] == h.world.users && defaults.reviews == h.world.reviews
      && r == QuietOutcome(old(source.projects), old(source.reviews), h)
    ensures defaults.projects == old(defaults.projects)
  {
    var projects, reviews := source.projects, source.reviews;
    var pool := new User[source.users.Length](i requires 0 <= i < source.users.Length reads source.users => source.users[i]);
    assert pool[..] == source.users[..];
    var toAssign := ToAssign(projects, reviews);
    ghost var h := RunUntilRaise(World(pool[..], defaults.users[..], defaults.reviews), toAssign, stamps, faults);
    var assignments, raised := AssignEachUntilRaise(toAssign, pool, defaults, stamps, faults);
    assert h == Halt(World(pool[..], defaults.users[..], defaults.reviews), assignments, raised);
    if raised.Some? {
      r := Err(raised.value);
    } else {
      var needing := Filter(projects, NeedsReviewFn());
      r := Ok(QuietSummary(|assignments|, |needing|, |needing| - |toAssign|, assignments));
    }
  }

  /** The notebook's `for project in projects_to_assign`, with nothing caught. */
  method AssignEachUntilRaise(ps: seq<Project>, pool: array<User>, store: Store, stamps: nat -> Stamp, faults: nat -> Fault)
    returns (assignments: seq<Review>, raised: Option<Fault>)
    requires pool != store.users
    modifies pool, store, store.users
    ensures RunUntilRaise(World(old(pool[..]), old(store.users[..]), old(store.reviews)), ps, stamps, faults)
      == Halt(World(pool[..], store.users[..], store.reviews), assignments, raised)
    ensures store.projects == old(store.projects)
  {
    ghost var w := World(pool[..], store.users[..], store.reviews);
    assignments := [];
    for k := 0 to |ps|
      invariant RunUntilRaise(w, ps[..k], stamps, faults) == Halt(World(pool[..], store.users[..], store.reviews), assignments, None)
      invariant store.projects == old(store.projects)
    {
      RunUntilRaiseNext(w, ps, k, stamps, faults);
      var out := AssignReviewer(ps[k], pool, store, stamps(k), faults(k));
      match out {
        case Assigned(review) => assignments := assignments + [review];
        case NoReviewer =>
        case Raised(f) =>
          RaisedStaysRaised(w, ps, k + 1, stamps, faults);
          return assignments, Some(f);
      }
    }
    assert ps[..|ps|] == ps;
    raised := None;
  }

  /** Once a project raises, the rest of the list changes nothing. */
  lemma {:induction false} RaisedStaysRaised(w: World, ps: seq<Project>, k: nat, stamps: nat -> Stamp, faults: nat -> Fault)
    requires k <= |ps| && RunUntilRaise(w, ps[..k], stamps, faults).raised.Some?
    ensures RunUntilRaise(w, ps, stamps, faults) == RunUntilRaise(w, ps[..k], stamps, faults)
    decreases |ps| - k
  {
    if k < |ps| {
      assert ps[..k + 1][..k] == ps[..k];
      RaisedStaysRaised(w, ps, k + 1, stamps, faults);
    } else {
      assert ps[..k] == ps;
    }
  }
}
