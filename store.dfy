/**
 * The three CSV files as the scheduler reads and writes them, held in memory:
 * the users file as a fixed-length array whose rows are replaced in place,
 * the reviews file as a sequence that only grows, and the projects file.
 */
module RecordStore {
  import opened Wrappers
  import opened Records

  /** Position of the first user with the given `User_ID`. */
  function IndexOfId(s: seq<User>, id: string): (r: Option<nat>)
    ensures r.Some? ==> r.value < |s| && s[r.value].id == id
    ensures r.Some? ==> forall j :: 0 <= j < r.value ==> s[j].id != id
    ensures r.None? ==> forall j :: 0 <= j < |s| ==> s[j].id != id
  {
    if s == [] then None
    else if s[0].id == id then Some(0)
    else match IndexOfId(s[1..], id) {
      case None => None
      case Some(i) => Some(i + 1)
    }
  }

  /** The user list after `update_user(u)`: the first row with `u`'s id becomes `u`. */
  function ReplaceFirst(s: seq<User>, u: User): (r: seq<User>)
  {
    if s == [] then []
    else if s[0].id == u.id then [u] + s[1..]
    else [s[0]] + ReplaceFirst(s[1..], u)
  }

  /**
   * Only the first row whose id matches is replaced, and with no matching row
   * nothing changes.
   */
  lemma {:induction false} ReplaceFirstSpec(s: seq<User>, u: User)
    ensures IndexOfId(s, u.id).None? ==> ReplaceFirst(s, u) == s
    ensures IndexOfId(s, u.id).Some? ==> ReplaceFirst(s, u) == s[IndexOfId(s, u.id).value := u]
  {
    if s != [] && s[0].id != u.id {
      ReplaceFirstSpec(s[1..], u);
      assert s == [s[0]] + s[1..];
    }
  }

  class Store {
    var projects: seq<Project>
    const users: array<User>
    var reviews: seq<Review>

    constructor(projects: seq<Project>, users: seq<User>, reviews: seq<Review>)
      ensures this.projects == projects && this.users[..] == users && this.reviews == reviews
      ensures fresh(this.users)
    {
      this.projects := projects;
      this.users := new User[|users|](i requires 0 <= i < |users| => users[i]);
      this.reviews := reviews;
    }

    /** `update_user`: overwrites the first row with the same `User_ID`, if any. */
    method UpdateUser(u: User)
      modifies users
      ensures users[..] == ReplaceFirst(old(users[..]), u)
    {
      ghost var before := users[..];
      var i := 0;
      while i < users.Length
        invariant 0 <= i <= users.Length
        invariant users[..] == before
        invariant forall j :: 0 <= j < i ==> before[j].id != u.id
      {
        if users[i].id == u.id {
          users[i] := u;
          ReplaceFirstSpec(before, u);
          IndexAt(before, u.id, i);
          return;
        }
        i := i + 1;
      }
      ReplaceFirstSpec(before, u);
      IndexAt(before, u.id, |before|);
    }

    /** `add_review`: appends one row to the reviews file. */
    method AddReview(r: Review)
      modifies this
      ensures reviews == old(reviews) + [r]
      ensures projects == old(projects)
    {
      reviews := reviews + [r];
    }

    /** `write_csv` on the projects file. */
    method WriteProjects(ps: seq<Project>)
      modifies this
      ensures projects == ps
      ensures reviews == old(reviews)
    {
      projects := ps;
    }
  }

  /** The first `k` rows do not match, and row `k` (if any) does. */
  lemma IndexAt(s: seq<User>, id: string, k: nat)
    requires k <= |s|
    requires forall j :: 0 <= j < k ==> s[j].id != id
    requires k < |s| ==> s[k].id == id
    ensures k < |s| ==> IndexOfId(s, id) == Some(k)
    ensures k == |s| ==> IndexOfId(s, id) == None
  {
  }
}
