/** The records the grading application keeps (users, projects,
    deliverables, grades), the JavaScript number values that reach the core,
    and the `find`-style lookups by identifier. */
module Records {

  datatype Option<+T> = None | Some(value: T)

  datatype Result<+R, +E> = Ok(value: R) | Err(error: E)

  /** Identifiers are opaque strings minted by the application; the core only
      compares them for equality. */
  type Id = string

  /** A JavaScript number as produced by `Number(...)` on form input. */
  datatype NumberValue = NaN | PosInfinity | NegInfinity | Finite(r: real)

  datatype Role = Student | Professor

  datatype User = User(id: Id, username: string, role: Role)

  /** `createdBy` is the id of the student who created the project. */
  datatype Project = Project(id: Id, title: string, teamUsernames: seq<string>, createdBy: Id)

  /** Times are milliseconds since the epoch. `jurySize` keeps the JavaScript
      number it was stored as; `juryUserIds` is empty until the jury is drawn. */
  datatype Deliverable = Deliverable(
    id: Id,
    projectId: Id,
    title: string,
    dueAt: int,
    jurySize: NumberValue,
    editWindowMin: real,
    link: string,
    juryUserIds: seq<Id>)

  /** A grade value is kept in hundredths: 725 stands for 7.25. */
  datatype Grade = Grade(
    id: Id,
    deliverableId: Id,
    evaluatorId: Id,
    value: int,
    createdAt: int,
    updatedAt: int)

  predicate Distinct<T(==)>(s: seq<T>) {
    forall i, j :: 0 <= i < j < |s| ==> s[i] != s[j]
  }

  /** Putting a new element in front keeps a sequence free of repetitions. */
  lemma DistinctCons<T>(x: T, s: seq<T>)
    requires Distinct(s) && x !in s
    ensures Distinct([x] + s)
  {
  }

  /** `list.findIndex(p)`: the first index whose element satisfies `p`. */
  function FindIndex<T>(s: seq<T>, p: T -> bool): (r: Option<nat>)
    ensures r.Some? ==> r.value < |s| && p(s[r.value])
    ensures r.Some? ==> forall k :: 0 <= k < r.value ==> !p(s[k])
    ensures r.None? ==> forall k :: 0 <= k < |s| ==> !p(s[k])
  {
    if s == [] then None
    else if p(s[0]) then Some(0)
    else match FindIndex(s[1..], p)
      case None => None
      case Some(k) => Some(k + 1)
  }

  /** Appending never changes a search that already succeeds. */
  lemma FindIndexAppend<T>(s: seq<T>, x: T, p: T -> bool)
    requires FindIndex(s, p).Some?
    ensures FindIndex(s + [x], p) == FindIndex(s, p)
  {
    var k := FindIndex(s, p).value;
    assert p((s + [x])[k]);
  }

  /** Replacing an element by one on which `p` agrees never changes the index
      a search returns. */
  lemma FindIndexUpdate<T>(s: seq<T>, k: nat, x: T, p: T -> bool)
    requires k < |s| && p(x) == p(s[k])
    ensures FindIndex(s[k := x], p) == FindIndex(s, p)
  {
    var r := FindIndex(s, p);
    var r' := FindIndex(s[k := x], p);
    if r.Some? {
      assert p(s[k := x][r.value]);
    }
    if r'.Some? {
      assert p(s[r'.value]);
    }
  }

  /** `byId(users, id)`. */
  function UserById(users: seq<User>, id: Id): (r: Option<User>)
    ensures r.Some? ==> r.value in users && r.value.id == id
    ensures r.None? <==> forall u :: u in users ==> u.id != id
  {
    match FindIndex(users, (u: User) => u.id == id)
    case None => None
    case Some(k) => Some(users[k])
  }

  /** `byId(projects, id)`. */
  function ProjectById(projects: seq<Project>, id: Id): (r: Option<Project>)
    ensures r.Some? ==> r.value in projects && r.value.id == id
    ensures r.None? <==> forall p :: p in projects ==> p.id != id
  {
    match FindIndex(projects, (p: Project) => p.id == id)
    case None => None
    case Some(k) => Some(projects[k])
  }

  /** `byId(deliverables, id)`, by position. */
  function DeliverableIndex(deliverables: seq<Deliverable>, id: Id): (r: Option<nat>)
    ensures r.Some? ==> r.value < |deliverables| && deliverables[r.value].id == id
    ensures r.None? <==> forall d :: d in deliverables ==> d.id != id
  {
    FindIndex(deliverables, (d: Deliverable) => d.id == id)
  }

  /** `byId(deliverables, id)`. */
  function DeliverableById(deliverables: seq<Deliverable>, id: Id): (r: Option<Deliverable>)
    ensures r.Some? ==> r.value in deliverables && r.value.id == id
    ensures r.None? <==> forall d :: d in deliverables ==> d.id != id
  {
    match DeliverableIndex(deliverables, id)
    case None => None
    case Some(k) => Some(deliverables[k])
  }

  /** `users.map(u => u.id)`. */
  function Ids(users: seq<User>): (ids: seq<Id>)
    ensures |ids| == |users|
    ensures forall k :: 0 <= k < |users| ==> ids[k] == users[k].id
  {
    seq(|users|, k requires 0 <= k < |users| => users[k].id)
  }

  /** When user ids are distinct, looking a listed user up by id finds that user. */
  lemma {:induction false} UserByIdFinds(users: seq<User>, u: User)
    requires Distinct(Ids(users)) && u in users
    ensures UserById(users, u.id) == Some(u)
  {
    var r := UserById(users, u.id);
    var i :| 0 <= i < |users| && users[i] == u;
    var k := FindIndex(users, (v: User) => v.id == u.id).value;
    assert Ids(users)[k] == Ids(users)[i];
  }
  /** Adding a user never changes whom an id already found resolves to. */
  lemma UserByIdAppend(users: seq<User>, u: User, id: Id)
    requires UserById(users, id).Some?
    ensures UserById(users + [u], id) == UserById(users, id)
  {
    FindIndexAppend(users, u, (v: User) => v.id == id);
  }

  /** Adding a project never changes which project an id already found names. */
  lemma ProjectByIdAppend(projects: seq<Project>, p: Project, id: Id)
    requires ProjectById(projects, id).Some?
    ensures ProjectById(projects + [p], id) == ProjectById(projects, id)
  {
    FindIndexAppend(projects, p, (q: Project) => q.id == id);
  }

  /** Adding a deliverable never changes which one an id already found names. */
  lemma DeliverableByIdAppend(deliverables: seq<Deliverable>, d: Deliverable, id: Id)
    requires DeliverableById(deliverables, id).Some?
    ensures DeliverableIndex(deliverables + [d], id) == DeliverableIndex(deliverables, id)
    ensures DeliverableById(deliverables + [d], id) == DeliverableById(deliverables, id)
  {
    FindIndexAppend(deliverables, d, (e: Deliverable) => e.id == id);
  }

  /** Replacing a deliverable by one with the same id keeps every lookup's position. */
  lemma DeliverableIndexUpdate(deliverables: seq<Deliverable>, k: nat, d: Deliverable, id: Id)
    requires k < |deliverables| && d.id == deliverables[k].id
    ensures DeliverableIndex(deliverables[k := d], id) == DeliverableIndex(deliverables, id)
  {
    FindIndexUpdate(deliverables, k, d, (e: Deliverable) => e.id == id);
  }
}
