/** The application's database object and the handlers that change it in
    place: register, create project, create deliverable, draw a jury and save
    a grade. The clock, the random draws of the shuffle and the fresh ids the
    handlers would mint are parameters. */
module Database {
  import opened Records
  import opened Text
  import opened Team
  import opened Eligibility
  import opened Shuffling
  import Jury
  import opened Ledger
  import opened Validation
  import opened Consistency

  /** What a handler did: returned silently, refused with an alert, or
      changed the database. */
  datatype Outcome<E> = Ignored | Refused(reason: E) | Done

  /** The database's contents at one moment. */
  datatype DbState = DbState(users: seq<User>, projects: seq<Project>, deliverables: seq<Deliverable>,
                             grades: seq<Grade>, session: Option<Id>)

  class Db {
    var users: seq<User>
    var projects: seq<Project>
    var deliverables: seq<Deliverable>
    var grades: seq<Grade>
    /** The logged-in user's id (`db.session.userId`), if any. */
    var session: Option<Id>

    ghost function State(): DbState
      reads this
    {
      DbState(users, projects, deliverables, grades, session)
    }

    ghost predicate Valid()
      reads this
    {
      Consistent(users, projects, deliverables, grades)
    }

    /** The empty database created on first use. */
    constructor ()
      ensures State() == DbState([], [], [], [], None)
      ensures Valid()
    {
      users, projects, deliverables, grades, session := [], [], [], [], None;
    }

    /** `getCurrentUser(db)`: the user the session names, if it names one. */
    function CurrentUser(): (r: Option<User>)
      reads this
      ensures r.Some? ==> session.Some? && r.value in users && r.value.id == session.value
      ensures r.None? <==> session.None? || forall u :: u in users ==> u.id != session.value
    {
      match session
      case None => None
      case Some(id) => UserById(users, id)
    }

    /** The register handler: a user with the trimmed username and the chosen
        role is added and logged in, unless the username is empty or taken up
        to case. `newId` stands for the fresh id `uid("u")` mints. */
    method Register(rawUsername: string, role: Role, newId: Id) returns (outcome: Outcome<Refusal>)
      requires Valid()
      requires forall u :: u in users ==> u.id != newId
      modifies this
      ensures Valid()
      ensures match CheckRegistration(old(users), rawUsername)
        case Err(e) => (outcome, State()) == (Refused(e), old(State()))
        case Ok(name) =>
          (outcome, State()) == (Done, old(State()).(users := old(users) + [User(newId, name, role)], session := Some(newId)))
    {
      var username := Trim(rawUsername);
      if username == [] {
        return Refused(UsernameRequired);
      }
      if UserByUsername(users, username).Some? {
        return Refused(UsernameTaken);
      }
      AddUser(User(newId, username, role));
      return Done;
    }

    /** The store step of the register handler: the user is pushed and
        logged in. */
    method AddUser(u: User)
      requires Valid()
      requires forall v :: v in users ==> v.id != u.id && !EqualsIgnoreCase(v.username, u.username)
      modifies this
      ensures Valid()
      ensures State() == old(State()).(users := old(users) + [u], session := Some(u.id))
    {
      RegisterKeeps(users, projects, deliverables, grades, u);
      users := users + [u];
      session := Some(u.id);
    }

    /** The create-project handler: ignored unless a student is logged in;
        otherwise the project is stored with the trimmed title, the parsed
        team and the caller as creator, unless a check refuses it. */
    method CreateProject(rawTitle: string, rawTeam: string, newId: Id) returns (outcome: Outcome<Refusal>)
      requires Valid()
      modifies this
      ensures Valid()
      ensures old(CurrentUser()).None? || old(CurrentUser()).value.role != Student ==>
        (outcome, State()) == (Ignored, old(State()))
      ensures old(CurrentUser()).Some? && old(CurrentUser()).value.role == Student ==>
        match CheckProject(old(users), old(CurrentUser()).value, rawTitle, rawTeam)
        case Err(e) => (outcome, State()) == (Refused(e), old(State()))
        case Ok(fields) =>
          var project := Project(newId, fields.0, fields.1, old(CurrentUser()).value.id);
          (outcome, State()) == (Done, old(State()).(projects := old(projects) + [project]))
    {
      var me := CurrentUser();
      if me.None? || me.value.role != Student {
        return Ignored;
      }
      var checked := ValidateProject(users, me.value, rawTitle, rawTeam);
      if checked.Err? {
        return Refused(checked.error);
      }
      var project := Project(newId, checked.value.0, checked.value.1, me.value.id);
      CheckedProjectOk(users, me.value, rawTitle, rawTeam, newId);
      AddProject(project);
      return Done;
    }

    /** The store step of the create-project handler. */
    method AddProject(p: Project)
      requires Valid() && ProjectOk(users, p)
      modifies this
      ensures Valid()
      ensures State() == old(State()).(projects := old(projects) + [p])
    {
      CreateProjectKeeps(users, projects, deliverables, grades, p);
      projects := projects + [p];
    }

    /** The create-deliverable handler: ignored unless a student is logged
        in; otherwise the deliverable is stored without link and jury, unless
        a check refuses it. */
    method CreateDeliverable(projectId: Id, rawTitle: string, due: DueInput, jurySize: NumberValue,
                             editWindowMin: NumberValue, newId: Id) returns (outcome: Outcome<Refusal>)
      requires Valid()
      modifies this
      ensures Valid()
      ensures old(CurrentUser()).None? || old(CurrentUser()).value.role != Student ==>
        (outcome, State()) == (Ignored, old(State()))
      ensures old(CurrentUser()).Some? && old(CurrentUser()).value.role == Student ==>
        match CheckDeliverable(old(projects), old(CurrentUser()).value, projectId, rawTitle, due, jurySize, editWindowMin, newId)
        case Err(e) => (outcome, State()) == (Refused(e), old(State()))
        case Ok(d) => (outcome, State()) == (Done, old(State()).(deliverables := old(deliverables) + [d]))
    {
      var me := CurrentUser();
      if me.None? || me.value.role != Student {
        return Ignored;
      }
      match CheckDeliverable(projects, me.value, projectId, rawTitle, due, jurySize, editWindowMin, newId)
      case Err(e) =>
        return Refused(e);
      case Ok(d) =>
        CheckedDeliverableOk(users, projects, me.value, projectId, rawTitle, due, jurySize, editWindowMin, newId);
        AddDeliverable(d);
        return Done;
    }

    /** The store step of the create-deliverable handler. */
    method AddDeliverable(d: Deliverable)
      requires Valid() && DeliverableOk(users, projects, d)
      modifies this
      ensures Valid()
      ensures State() == old(State()).(deliverables := old(deliverables) + [d])
    {
      CreateDeliverableKeeps(users, projects, deliverables, grades, d);
      deliverables := deliverables + [d];
    }

    /** `assignJuryIfDue(db, deliverable)` for the deliverable at position `k`:
        once due and while it has no jury, the first `JuryCount` of a shuffle
        of its eligible pool become its jury; nothing else changes. */
    method AssignJuryIfDue(k: nat, now: int, draws: seq<nat>)
      requires Valid() && k < |deliverables|
      requires DrawsFit(draws, |EligibleEvaluators(projects, users, deliverables[k])|)
      modifies this
      ensures Valid()
      ensures var drawn := Jury.AssignJuryIfDue(
          old(deliverables[k]), EligibleEvaluators(old(projects), old(users), old(deliverables[k])), now, draws);
        State() == old(State()).(deliverables := old(deliverables)[k := drawn])
    {
      var d := deliverables[k];
      var eligible := EligibleEvaluators(projects, users, d);
      var drawn := Jury.DrawJury(d, eligible, now, draws);
      StoreJury(k, now, draws, drawn);
    }

    /** The store step of `assignJuryIfDue`: the deliverable at position `k`
        is replaced by its copy with the drawn jury. */
    method StoreJury(k: nat, now: int, draws: seq<nat>, drawn: Deliverable)
      requires Valid() && k < |deliverables|
      requires DrawsFit(draws, |EligibleEvaluators(projects, users, deliverables[k])|)
      requires drawn == Jury.AssignJuryIfDue(deliverables[k], EligibleEvaluators(projects, users, deliverables[k]), now, draws)
      modifies this
      ensures Valid()
      ensures State() == old(State()).(deliverables := old(deliverables)[k := drawn])
    {
      AssignJuryKeeps(users, projects, deliverables, grades, k, now, draws);
      deliverables := deliverables[k := drawn];
    }

    /** The save-grade handler: ignored without a logged-in user or an
        existing deliverable; otherwise the submission is refused or stored as
        `SubmitGrade` decides, creating the caller's grade or updating it in
        place. `newId` stands for the fresh id `uid("g")` mints. */
    method SaveGrade(dId: Id, raw: NumberValue, now: int, newId: Id) returns (outcome: Outcome<Rejection>)
      requires Valid()
      modifies this
      ensures Valid()
      ensures old(CurrentUser()).None? || DeliverableById(old(deliverables), dId).None? ==>
        (outcome, State()) == (Ignored, old(State()))
      ensures old(CurrentUser()).Some? && DeliverableById(old(deliverables), dId).Some? ==>
        match SubmitGrade(old(grades), DeliverableById(old(deliverables), dId).value, old(CurrentUser()).value.id, raw, now, newId)
        case Err(e) => (outcome, State()) == (Refused(e), old(State()))
        case Ok(updated) => (outcome, State()) == (Done, old(State()).(grades := updated))
    {
      var me := CurrentUser();
      var d := DeliverableById(deliverables, dId);
      if me.None? || d.None? {
        return Ignored;
      }
      if me.value.id !in d.value.juryUserIds {
        return Refused(NotJuror);
      }
      if !CanEditGrade(d.value, now) {
        return Refused(EditWindowClosed);
      }
      var value := NormalizeGrade(raw);
      if value.None? {
        return Refused(InvalidValue);
      }
      SaveGradeKeeps(users, projects, deliverables, grades, dId, me.value.id, raw, now, newId);
      StoreGrade(dId, me.value.id, value.value, now, newId);
      return Done;
    }

    /** The store step of the save-grade handler: the caller's grade for the
        deliverable gets the new value and `updatedAt` in place, or a new
        grade is pushed. */
    method StoreGrade(dId: Id, evaluator: Id, value: int, now: int, newId: Id)
      modifies this
      ensures State() == old(State()).(grades := UpsertGrade(old(grades), dId, evaluator, value, now, newId))
    {
      var existing := FindGrade(grades, dId, evaluator);
      if existing.None? {
        grades := grades + [Grade(newId, dId, evaluator, value, now, now)];
      } else {
        var i := existing.value;
        grades := grades[i := grades[i].(value := value, updatedAt := now)];
      }
    }
  }
}
