/** Who may be drawn onto the jury of a deliverable. */
module Eligibility {
  import opened Records
  import opened Team

  /** A user may grade the project's deliverables when they are a student and
      their username is not, up to case, in the project's team. */
  predicate MayGrade(project: Project, u: User) {
    u.role == Student && !IsUserInTeam(project, u.username)
  }

  /** The users who may grade, in the order of `users`. */
  function StudentsOutsideTeam(users: seq<User>, project: Project): (pool: seq<User>)
    ensures |pool| <= |users|
    ensures forall u :: u in pool <==> u in users && MayGrade(project, u)
  {
    if users == [] then []
    else
      var rest := StudentsOutsideTeam(users[1..], project);
      if MayGrade(project, users[0]) then [users[0]] + rest else rest
  }

  /** Filtering keeps user ids distinct. */
  lemma {:induction false} StudentsOutsideTeamDistinct(users: seq<User>, project: Project)
    ensures Distinct(Ids(users)) ==> Distinct(Ids(StudentsOutsideTeam(users, project)))
  {
    if users != [] && Distinct(Ids(users)) {
      var tail := users[1..];
      assert Ids(tail) == Ids(users)[1..];
      StudentsOutsideTeamDistinct(tail, project);
      var rest := StudentsOutsideTeam(tail, project);
      if MayGrade(project, users[0]) {
        assert users[0].id !in Ids(rest) by {
          forall k | 0 <= k < |rest|
            ensures Ids(rest)[k] != users[0].id
          {
            assert rest[k] in tail;
            var i :| 0 <= i < |tail| && tail[i] == rest[k];
            assert Ids(users)[i + 1] == rest[k].id;
          }
        }
        assert Ids([users[0]] + rest) == [users[0].id] + Ids(rest);
        DistinctCons(users[0].id, Ids(rest));
      }
    }
  }

  /** `eligibleEvaluatorsForDeliverable(db, deliverable)`: empty when the
      deliverable's project is missing, otherwise exactly the users who may
      grade that project; distinct user ids stay distinct. */
  function EligibleEvaluators(projects: seq<Project>, users: seq<User>, d: Deliverable): (pool: seq<User>)
    ensures ProjectById(projects, d.projectId).None? ==> pool == []
    ensures ProjectById(projects, d.projectId).Some? ==>
      forall u :: u in pool <==> u in users && MayGrade(ProjectById(projects, d.projectId).value, u)
    ensures |pool| <= |users|
    ensures Distinct(Ids(users)) ==> Distinct(Ids(pool))
  {
    match ProjectById(projects, d.projectId)
    case None => []
    case Some(project) =>
      StudentsOutsideTeamDistinct(users, project);
      StudentsOutsideTeam(users, project)
  }
}
