/** What the handlers' checks guarantee about the stored records, as one
    invariant over users, projects, deliverables and grades, and the proof
    that every state-changing handler keeps it. */
module Consistency {
  import opened Records
  import opened Text
  import opened Team
  import opened Eligibility
  import opened Shuffling
  import opened Jury
  import opened Ledger
  import opened Validation

  /** User ids are distinct and no two usernames are equal up to case. */
  predicate UsersOk(users: seq<User>) {
    Distinct(Ids(users))
    && forall i, j :: 0 <= i < j < |users| ==> !EqualsIgnoreCase(users[i].username, users[j].username)
  }

  /** A project's team is non-empty and made of registered students, and its
      creator is a user whose username is in the team. */
  predicate ProjectOk(users: seq<User>, p: Project) {
    && |p.teamUsernames| > 0
    && (forall k :: 0 <= k < |p.teamUsernames| ==> RegisteredStudent(users, p.teamUsernames[k]))
    && UserById(users, p.createdBy).Some?
    && IsUserInTeam(p, UserById(users, p.createdBy).value.username)
  }

  /** `id` names a user who may grade `project`. */
  predicate JurorOk(users: seq<User>, project: Project, id: Id) {
    UserById(users, id).Some? && MayGrade(project, UserById(users, id).value)
  }

  /** A deliverable belongs to a stored project, passed the creation checks
      on jury size and edit window, and its jurors are distinct users who may
      grade that project. */
  predicate DeliverableOk(users: seq<User>, projects: seq<Project>, d: Deliverable) {
    && ProjectById(projects, d.projectId).Some?
    && d.jurySize.Finite? && d.jurySize.r >= 3.0 && d.editWindowMin >= 1.0
    && Distinct(d.juryUserIds)
    && forall k :: 0 <= k < |d.juryUserIds| ==>
         JurorOk(users, ProjectById(projects, d.projectId).value, d.juryUserIds[k])
  }

  /** A grade holds a valid value and was given by a juror of its deliverable. */
  predicate GradeOk(deliverables: seq<Deliverable>, g: Grade) {
    && 100 <= g.value <= 1000
    && DeliverableById(deliverables, g.deliverableId).Some?
    && g.evaluatorId in DeliverableById(deliverables, g.deliverableId).value.juryUserIds
  }

  predicate Consistent(users: seq<User>, projects: seq<Project>, deliverables: seq<Deliverable>, grades: seq<Grade>) {
    && UsersOk(users)
    && (forall p :: p in projects ==> ProjectOk(users, p))
    && (forall d :: d in deliverables ==> DeliverableOk(users, projects, d))
    && UniqueGradeKeys(grades)
    && (forall g :: g in grades ==> GradeOk(deliverables, g))
  }

  /** Registering a user with a fresh id and a username not taken up to case
      keeps the invariant. */
  lemma RegisterKeeps(users: seq<User>, projects: seq<Project>, deliverables: seq<Deliverable>, grades: seq<Grade>, u: User)
    requires Consistent(users, projects, deliverables, grades)
    requires forall v :: v in users ==> v.id != u.id && !EqualsIgnoreCase(v.username, u.username)
    ensures Consistent(users + [u], projects, deliverables, grades)
  {
    var users' := users + [u];
    assert Distinct(Ids(users')) by {
      forall i, j | 0 <= i < j < |users'| ensures Ids(users')[i] != Ids(users')[j] {
        if j < |users| {
          assert Ids(users')[i] == Ids(users)[i] && Ids(users')[j] == Ids(users)[j];
        } else {
          assert users[i] in users;
        }
      }
    }
    assert UsersOk(users') by {
      forall i, j | 0 <= i < j < |users'|
        ensures !EqualsIgnoreCase(users'[i].username, users'[j].username)
      {
        if j == |users| {
          assert users[i] in users;
        }
      }
    }
    forall p | p in projects ensures ProjectOk(users', p) {
      assert ProjectOk(users, p);
      forall k | 0 <= k < |p.teamUsernames| ensures RegisteredStudent(users', p.teamUsernames[k]) {
        UserByUsernameAppend(users, u, p.teamUsernames[k]);
      }
      UserByIdAppend(users, u, p.createdBy);
    }
    forall d | d in deliverables ensures DeliverableOk(users', projects, d) {
      assert DeliverableOk(users, projects, d);
      forall k | 0 <= k < |d.juryUserIds|
        ensures JurorOk(users', ProjectById(projects, d.projectId).value, d.juryUserIds[k])
      {
        UserByIdAppend(users, u, d.juryUserIds[k]);
      }
    }
  }

  /** Adding a project that passed the creation checks keeps the invariant. */
  lemma CreateProjectKeeps(users: seq<User>, projects: seq<Project>, deliverables: seq<Deliverable>, grades: seq<Grade>, p: Project)
    requires Consistent(users, projects, deliverables, grades)
    requires ProjectOk(users, p)
    ensures Consistent(users, projects + [p], deliverables, grades)
  {
    forall d | d in deliverables ensures DeliverableOk(users, projects + [p], d) {
      assert DeliverableOk(users, projects, d);
      ProjectByIdAppend(projects, p, d.projectId);
    }
  }

  /** A project that passes the create-project checks for a logged-in
      student `me` is well-formed. */
  lemma CheckedProjectOk(users: seq<User>, me: User, rawTitle: string, rawTeam: string, newId: Id)
    requires UserById(users, me.id) == Some(me)
    requires CheckProject(users, me, rawTitle, rawTeam).Ok?
    ensures var fields := CheckProject(users, me, rawTitle, rawTeam).value;
      ProjectOk(users, Project(newId, fields.0, fields.1, me.id))
  {
    CheckProjectAccepts(users, me, rawTitle, rawTeam, ParseTeamUsernames(rawTeam));
  }

  /** A deliverable that passes the create-deliverable checks is well-formed:
      its project exists and it starts without jurors. */
  lemma CheckedDeliverableOk(users: seq<User>, projects: seq<Project>, me: User, projectId: Id, rawTitle: string,
                             due: DueInput, jurySize: NumberValue, editWindowMin: NumberValue, newId: Id)
    requires CheckDeliverable(projects, me, projectId, rawTitle, due, jurySize, editWindowMin, newId).Ok?
    ensures DeliverableOk(users, projects, CheckDeliverable(projects, me, projectId, rawTitle, due, jurySize, editWindowMin, newId).value)
  {
  }

  /** Adding a deliverable that passed the creation checks keeps the invariant. */
  lemma CreateDeliverableKeeps(users: seq<User>, projects: seq<Project>, deliverables: seq<Deliverable>, grades: seq<Grade>, d: Deliverable)
    requires Consistent(users, projects, deliverables, grades)
    requires DeliverableOk(users, projects, d)
    ensures Consistent(users, projects, deliverables + [d], grades)
  {
    forall g | g in grades ensures GradeOk(deliverables + [d], g) {
      assert GradeOk(deliverables, g);
      DeliverableByIdAppend(deliverables, d, g.deliverableId);
    }
  }

  /** Drawing the jury of a stored deliverable from its eligible pool keeps the
      invariant: the new jurors are distinct users who may grade the project,
      and no grade can point at a deliverable whose jury was still empty. */
  lemma AssignJuryKeeps(users: seq<User>, projects: seq<Project>, deliverables: seq<Deliverable>, grades: seq<Grade>,
                        k: nat, now: int, draws: seq<nat>)
    requires Consistent(users, projects, deliverables, grades)
    requires k < |deliverables|
    requires DrawsFit(draws, |EligibleEvaluators(projects, users, deliverables[k])|)
    ensures var d' := AssignJuryIfDue(deliverables[k], EligibleEvaluators(projects, users, deliverables[k]), now, draws);
      Consistent(users, projects, deliverables[k := d'], grades)
  {
    var d := deliverables[k];
    var pool := EligibleEvaluators(projects, users, d);
    var d' := AssignJuryIfDue(d, pool, now, draws);
    var deliverables' := deliverables[k := d'];
    if d' == d {
      assert deliverables' == deliverables;
    } else {
      assert d in deliverables;
      DrawnJuryOk(users, projects, d, now, draws);
      NewJuryKeeps(users, projects, deliverables, grades, k, d');
    }
  }

  /** Giving a jury that satisfies the invariant to a deliverable that had
      none keeps the invariant. */
  lemma NewJuryKeeps(users: seq<User>, projects: seq<Project>, deliverables: seq<Deliverable>, grades: seq<Grade>,
                     k: nat, d': Deliverable)
    requires Consistent(users, projects, deliverables, grades)
    requires k < |deliverables| && deliverables[k].juryUserIds == [] && d'.id == deliverables[k].id
    requires DeliverableOk(users, projects, d')
    ensures Consistent(users, projects, deliverables[k := d'], grades)
  {
    ReplaceDeliverableKeeps(users, projects, deliverables, k, d');
    FirstJuryKeepsGrades(deliverables, grades, k, d');
  }

  /** Replacing one deliverable by one that satisfies the invariant keeps
      the rule on deliverables. */
  lemma ReplaceDeliverableKeeps(users: seq<User>, projects: seq<Project>, deliverables: seq<Deliverable>, k: nat, d': Deliverable)
    requires k < |deliverables|
    requires forall d :: d in deliverables ==> DeliverableOk(users, projects, d)
    requires DeliverableOk(users, projects, d')
    ensures forall d :: d in deliverables[k := d'] ==> DeliverableOk(users, projects, d)
  {
    forall e | e in deliverables[k := d'] ensures DeliverableOk(users, projects, e) {
      var i :| 0 <= i < |deliverables| && deliverables[k := d'][i] == e;
      if i != k {
        assert deliverables[i] in deliverables;
      }
    }
  }

  /** Giving a jury to a deliverable that had none keeps every grade valid:
      no grade can name a juror of an empty jury. */
  lemma FirstJuryKeepsGrades(deliverables: seq<Deliverable>, grades: seq<Grade>, k: nat, d': Deliverable)
    requires k < |deliverables| && deliverables[k].juryUserIds == [] && d'.id == deliverables[k].id
    requires forall g :: g in grades ==> GradeOk(deliverables, g)
    ensures forall g :: g in grades ==> GradeOk(deliverables[k := d'], g)
  {
    forall g | g in grades ensures GradeOk(deliverables[k := d'], g) {
      assert GradeOk(deliverables, g);
      DeliverableIndexUpdate(deliverables, k, d', g.deliverableId);
    }
  }

  /** A jury drawn from the eligible pool of a deliverable satisfies the
      invariant's rule on jurors. */
  lemma DrawnJuryOk(users: seq<User>, projects: seq<Project>, d: Deliverable, now: int, draws: seq<nat>)
    requires UsersOk(users) && DeliverableOk(users, projects, d)
    requires DrawsFit(draws, |EligibleEvaluators(projects, users, d)|)
    ensures DeliverableOk(users, projects, AssignJuryIfDue(d, EligibleEvaluators(projects, users, d), now, draws))
  {
    var pool := EligibleEvaluators(projects, users, d);
    var d' := AssignJuryIfDue(d, pool, now, draws);
    if d' != d {
      var project := ProjectById(projects, d.projectId).value;
      JuryDrawn(d, pool, now, draws);
      forall i | 0 <= i < |d'.juryUserIds| ensures JurorOk(users, project, d'.juryUserIds[i]) {
        var id := d'.juryUserIds[i];
        assert id in Ids(pool);
        var j :| 0 <= j < |pool| && Ids(pool)[j] == id;
        assert pool[j] in pool;
        UserByIdFinds(users, pool[j]);
      }
    }
  }

  /** Storing an accepted submission keeps the invariant. */
  lemma SaveGradeKeeps(users: seq<User>, projects: seq<Project>, deliverables: seq<Deliverable>, grades: seq<Grade>,
                       dId: Id, evaluator: Id, raw: NumberValue, now: int, newId: Id)
    requires Consistent(users, projects, deliverables, grades)
    requires DeliverableById(deliverables, dId).Some?
    requires SubmitGrade(grades, DeliverableById(deliverables, dId).value, evaluator, raw, now, newId).Ok?
    ensures Consistent(users, projects, deliverables,
                       SubmitGrade(grades, DeliverableById(deliverables, dId).value, evaluator, raw, now, newId).value)
  {
    var d := DeliverableById(deliverables, dId).value;
    SubmitGradeSpec(grades, d, evaluator, raw, now, newId);
    var v := NormalizeGrade(raw).value;
    UpsertGradeMembers(grades, d.id, evaluator, v, now, newId);
  }

  /** Nobody grades their own work: in a consistent state, every grade was
      given by a student who is not in the team of the graded project. */
  lemma GradersAreOutsiders(users: seq<User>, projects: seq<Project>, deliverables: seq<Deliverable>, grades: seq<Grade>)
    requires Consistent(users, projects, deliverables, grades)
    ensures forall g :: g in grades ==>
      var d := DeliverableById(deliverables, g.deliverableId).value;
      var evaluator := UserById(users, g.evaluatorId);
      && evaluator.Some?
      && evaluator.value.role == Student
      && !IsUserInTeam(ProjectById(projects, d.projectId).value, evaluator.value.username)
  {
    forall g | g in grades
      ensures var d := DeliverableById(deliverables, g.deliverableId).value;
        var evaluator := UserById(users, g.evaluatorId);
        && evaluator.Some?
        && evaluator.value.role == Student
        && !IsUserInTeam(ProjectById(projects, d.projectId).value, evaluator.value.username)
    {
      assert GradeOk(deliverables, g);
      var d := DeliverableById(deliverables, g.deliverableId).value;
      assert DeliverableOk(users, projects, d);
      var i :| 0 <= i < |d.juryUserIds| && d.juryUserIds[i] == g.evaluatorId;
      assert JurorOk(users, ProjectById(projects, d.projectId).value, d.juryUserIds[i]);
    }
  }

  /** A stored deliverable's jury size already passed the "at least 3" check,
      so the jury drawn for it asks for `floor(jurySize)` jurors, or the
      whole pool when that is smaller. */
  lemma StoredJuryCount(users: seq<User>, projects: seq<Project>, d: Deliverable, poolSize: nat)
    requires DeliverableOk(users, projects, d)
    ensures JuryCount(d.jurySize, poolSize) == Smaller(d.jurySize.r.Floor, poolSize)
  {
  }
}
