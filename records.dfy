/**
 * The three record kinds kept by the scheduler, one CSV row each, and the
 * status words it writes into them.
 */
module Records {
  /** A row of Projects.csv. Every cell is text, as the CSV reader returns it. */
  datatype Project = Project(
    id: string,
    name: string,
    startDate: string,
    lastReviewDate: string,
    frequencyYears: string,
    department: string,
    status: string,
    nextReviewDate: string)

  /**
   * `Current_Load` as a reviewer record holds it: the text read from the CSV
   * file, or the integer the assignment step stores back after coercing it.
   */
  datatype Load = Text(raw: string) | Count(n: int)

  /** A row of Users.csv. */
  datatype User = User(id: string, name: string, email: string, department: string, load: Load)

  /** A row of Reviews.csv. */
  datatype Review = Review(
    id: string,
    projectId: string,
    reviewerId: string,
    scheduledDate: string,
    status: string,
    completionDate: string)

  const Overdue := "Overdue"
  const DueSoon := "Due Soon"
  const UpToDate := "Up to Date"
  const Scheduled := "Scheduled"
  const InProgress := "In Progress"

  /** A review that still occupies its project and its reviewer. */
  predicate IsActive(r: Review) { r.status == Scheduled || r.status == InProgress }

  /** A project whose status asks for a reviewer. */
  predicate NeedsReview(p: Project) { p.status == Overdue || p.status == DueSoon }
}
