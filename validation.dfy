/** The input rules of the register, create-project and create-deliverable
    handlers. Each handler refuses with the first rule that fails, in the
    order the handler checks them, and stores nothing when it refuses. */
module Validation {
  import opened Records
  import opened Text
  import opened Team

  /** Why a handler refuses its input (the message it alerts). */
  datatype Refusal =
    | UsernameRequired
    | UsernameTaken
    | TitleRequired
    | EmptyTeam
    | CreatorNotInTeam
    | MemberNotRegistered(name: string)
    | MemberNotStudent(name: string)
    | ProjectNotFound
    | NotInProjectTeam
    | DueDateRequired
    | InvalidDueDate
    | JuryTooSmall
    | EditWindowTooShort

  /** The register handler: the username is the trimmed input; it is refused
      when empty and when some user already has it up to case. */
  function CheckRegistration(users: seq<User>, rawUsername: string): (r: Result<string, Refusal>)
    ensures r.Ok? <==> Trim(rawUsername) != [] && forall u :: u in users ==> !EqualsIgnoreCase(u.username, Trim(rawUsername))
    ensures r.Ok? ==> r.value == Trim(rawUsername) && IsTrimmed(r.value)
    ensures Trim(rawUsername) == [] ==> r == Err(UsernameRequired)
    ensures r.Err? && Trim(rawUsername) != [] ==> r == Err(UsernameTaken)
  {
    TrimSpec(rawUsername);
    var name := Trim(rawUsername);
    if name == [] then Err(UsernameRequired)
    else if UserByUsername(users, name).Some? then Err(UsernameTaken)
    else Ok(name)
  }

  /** A registered student: `userByUsername` finds the name and the user found
      has the student role. */
  predicate RegisteredStudent(users: seq<User>, name: string) {
    UserByUsername(users, name).Some? && UserByUsername(users, name).value.role == Student
  }

  /** What one iteration of the team-member loop refuses for `name`, if anything. */
  function MemberRefusal(users: seq<User>, name: string): (r: Option<Refusal>)
    ensures r.None? <==> RegisteredStudent(users, name)
    ensures r.Some? ==> r.value == MemberNotRegistered(name) || r.value == MemberNotStudent(name)
  {
    match UserByUsername(users, name)
    case None => Some(MemberNotRegistered(name))
    case Some(u) => if u.role != Student then Some(MemberNotStudent(name)) else None
  }

  /** The team-member loop as a value: the refusal of the first member that is
      not a registered student, if any. */
  function FirstBadMember(users: seq<User>, team: seq<string>): (r: Option<Refusal>)
    ensures r.None? <==> forall k :: 0 <= k < |team| ==> RegisteredStudent(users, team[k])
  {
    if team == [] then None
    else if MemberRefusal(users, team[0]).Some? then MemberRefusal(users, team[0])
    else
      var rest := FirstBadMember(users, team[1..]);
      assert forall k :: 0 < k < |team| ==> team[k] == team[1..][k - 1];
      rest
  }

  /** The refusal is the one of the first member that is not a registered
      student: members before it pass, and the loop stops there. */
  lemma {:induction false} FirstBadMemberIsFirst(users: seq<User>, team: seq<string>, k: nat)
    requires k < |team| && !RegisteredStudent(users, team[k])
    requires forall j :: 0 <= j < k ==> RegisteredStudent(users, team[j])
    ensures FirstBadMember(users, team) == MemberRefusal(users, team[k])
  {
    if k > 0 {
      var rest := team[1..];
      assert RegisteredStudent(users, team[0]);
      assert rest[k - 1] == team[k];
      assert forall j :: 0 <= j < k - 1 ==> rest[j] == team[j + 1];
      FirstBadMemberIsFirst(users, rest, k - 1);
      assert MemberRefusal(users, team[0]).None?;
    }
  }

  /** `for (const name of team) { ... }` in the create-project handler: stops
      at the first member who is not registered or not a student. */
  method CheckTeamMembers(users: seq<User>, team: seq<string>) returns (r: Option<Refusal>)
    ensures r == FirstBadMember(users, team)
  {
    var i := 0;
    while i < |team|
      invariant 0 <= i <= |team|
      invariant FirstBadMember(users, team) == FirstBadMember(users, team[i..])
    {
      assert team[i..][1..] == team[i + 1..];
      var u := UserByUsername(users, team[i]);
      if u.None? {
        return Some(MemberNotRegistered(team[i]));
      }
      if u.value.role != Student {
        return Some(MemberNotStudent(team[i]));
      }
      i := i + 1;
    }
    return None;
  }

  /** The create-project handler once a student `me` is logged in: the
      trimmed title and the parsed team, refused when the title is empty, the
      team is empty, `me` is not in the team (up to case) or a member is not a
      registered student. */
  function CheckProject(users: seq<User>, me: User, rawTitle: string, rawTeam: string)
    : (r: Result<(string, seq<string>), Refusal>)
    ensures r.Ok? ==> r.value == (Trim(rawTitle), ParseTeamUsernames(rawTeam))
  {
    var title := Trim(rawTitle);
    var team := ParseTeamUsernames(rawTeam);
    if title == [] then Err(TitleRequired)
    else if |team| == 0 then Err(EmptyTeam)
    else if !InTeamList(team, me.username) then Err(CreatorNotInTeam)
    else match FirstBadMember(users, team)
      case Some(refusal) => Err(refusal)
      case None => Ok((title, team))
  }

  /** The create-project handler refuses with the first check that fails:
      an empty title, then an empty team, then a creator outside the team,
      then the first member who is not a registered student. */
  lemma CheckProjectAccepts(users: seq<User>, me: User, rawTitle: string, rawTeam: string, team: seq<string>)
    requires team == ParseTeamUsernames(rawTeam)
    ensures CheckProject(users, me, rawTitle, rawTeam).Ok? <==>
      && Trim(rawTitle) != []
      && |team| > 0
      && InTeamList(team, me.username)
      && forall k :: 0 <= k < |team| ==> RegisteredStudent(users, team[k])
  {
    var title, bad := Trim(rawTitle), FirstBadMember(users, team);
    assert CheckProject(users, me, rawTitle, rawTeam) ==
      if title == [] then Err(TitleRequired)
      else if |team| == 0 then Err(EmptyTeam)
      else if !InTeamList(team, me.username) then Err(CreatorNotInTeam)
      else if bad.Some? then Err(bad.value)
      else Ok((title, team));
  }

  lemma CheckProjectRefusals(users: seq<User>, me: User, rawTitle: string, rawTeam: string, team: seq<string>)
    requires team == ParseTeamUsernames(rawTeam)
    ensures Trim(rawTitle) == [] ==> CheckProject(users, me, rawTitle, rawTeam) == Err(TitleRequired)
    ensures Trim(rawTitle) != [] && team == [] ==> CheckProject(users, me, rawTitle, rawTeam) == Err(EmptyTeam)
    ensures Trim(rawTitle) != [] && team != [] && !InTeamList(team, me.username) ==>
      CheckProject(users, me, rawTitle, rawTeam) == Err(CreatorNotInTeam)
    ensures Trim(rawTitle) != [] && InTeamList(team, me.username) && FirstBadMember(users, team).Some? ==>
      CheckProject(users, me, rawTitle, rawTeam) == Err(FirstBadMember(users, team).value)
  {
  }

  /** The create-project handler's checks, run in its order, with the
      member loop. */
  method ValidateProject(users: seq<User>, me: User, rawTitle: string, rawTeam: string)
    returns (r: Result<(string, seq<string>), Refusal>)
    ensures r == CheckProject(users, me, rawTitle, rawTeam)
  {
    var title := Trim(rawTitle);
    var team := ParseTeamUsernames(rawTeam);
    if title == [] {
      return Err(TitleRequired);
    }
    if |team| == 0 {
      return Err(EmptyTeam);
    }
    if !InTeamList(team, me.username) {
      return Err(CreatorNotInTeam);
    }
    var bad := CheckTeamMembers(users, team);
    if bad.Some? {
      return Err(bad.value);
    }
    return Ok((title, team));
  }

  /** What `new Date(dueStr).getTime()` made of the due-date field: nothing
      entered, text that does not parse, or an instant in milliseconds. */
  datatype DueInput = NoDueDate | UnparseableDate | DueAt(ms: int)

  /** The create-deliverable handler once a student `me` is logged in:
      the project must exist and have `me` in its team, the trimmed title must
      be non-empty, the due date present and valid, the jury size a finite
      number of at least 3 and the edit window a finite number of at least one
      minute. The deliverable starts without a link and without a jury. */
  function CheckDeliverable(projects: seq<Project>, me: User, projectId: Id, rawTitle: string, due: DueInput,
                            jurySize: NumberValue, editWindowMin: NumberValue, newId: Id)
    : (r: Result<Deliverable, Refusal>)
    ensures r.Ok? <==>
      && ProjectById(projects, projectId).Some?
      && IsUserInTeam(ProjectById(projects, projectId).value, me.username)
      && Trim(rawTitle) != []
      && due.DueAt?
      && jurySize.Finite? && jurySize.r >= 3.0
      && editWindowMin.Finite? && editWindowMin.r >= 1.0
    ensures r.Ok? ==> r.value == Deliverable(newId, projectId, Trim(rawTitle), due.ms, jurySize, editWindowMin.r, [], [])
    ensures ProjectById(projects, projectId).None? ==> r == Err(ProjectNotFound)
    ensures ProjectById(projects, projectId).Some? && !IsUserInTeam(ProjectById(projects, projectId).value, me.username)
      ==> r == Err(NotInProjectTeam)
  {
    match ProjectById(projects, projectId)
    case None => Err(ProjectNotFound)
    case Some(project) =>
      var title := Trim(rawTitle);
      if !IsUserInTeam(project, me.username) then Err(NotInProjectTeam)
      else if title == [] then Err(TitleRequired)
      else if due.NoDueDate? then Err(DueDateRequired)
      else if due.UnparseableDate? then Err(InvalidDueDate)
      else if !jurySize.Finite? || jurySize.r < 3.0 then Err(JuryTooSmall)
      else if !editWindowMin.Finite? || editWindowMin.r < 1.0 then Err(EditWindowTooShort)
      else Ok(Deliverable(newId, projectId, title, due.ms, jurySize, editWindowMin.r, [], []))
  }
}
