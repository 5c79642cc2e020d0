/** The grade ledger: normalising a submitted value, the edit window, and the
    rule that creates or updates the single grade a juror holds for a
    deliverable. */
module Ledger {
  import opened Records

  /** `Math.round(x)`: the nearest integer, halves rounded up. */
  function RoundHalfUp(x: real): (n: int)
    ensures (n as real) - 0.5 <= x < (n as real) + 0.5
  {
    (x + 0.5).Floor
  }

  /** `clamp2Decimals(Number(input))` followed by `isValidGrade`, with the
      value kept in hundredths: round to two decimals, then accept only
      values between 1 and 10 inclusive. */
  function NormalizeGrade(raw: NumberValue): (r: Option<int>)
  {
    match raw
    case Finite(x) =>
      var h := RoundHalfUp(x * 100.0);
      if 100 <= h <= 1000 then Some(h) else None
    case _ => None
  }

  /** A submission is accepted exactly when it is a finite number that rounds
      into [1, 10]; the stored value is then that number rounded to the
      nearest hundredth. */
  lemma NormalizeGradeSpec(raw: NumberValue)
    ensures NormalizeGrade(raw).Some? <==> raw.Finite? && 0.995 <= raw.r < 10.005
    ensures NormalizeGrade(raw).Some? ==>
      var h := NormalizeGrade(raw).value;
      && 100 <= h <= 1000
      && (h as real) - 0.5 <= raw.r * 100.0 < (h as real) + 0.5
  {
  }

  /** A stored value re-validates as itself: normalising is idempotent. */
  lemma NormalizeGradeRoundTrip(h: int)
    requires 100 <= h <= 1000
    ensures NormalizeGrade(Finite(h as real / 100.0)) == Some(h)
  {
    assert (h as real / 100.0) * 100.0 == h as real;
  }

  /** `canEditGrade(deliverable)` at the clock reading `now`: until
      `dueAt + editWindowMin` minutes, inclusive. */
  predicate CanEditGrade(d: Deliverable, now: int) {
    now as real <= d.dueAt as real + d.editWindowMin * 60000.0
  }

  /** Once the window has closed it stays closed; with the one-minute minimum
      window it is open for at least the first minute after the due time. */
  lemma EditWindowSpec(d: Deliverable, now: int, later: int)
    ensures !CanEditGrade(d, now) && now <= later ==> !CanEditGrade(d, later)
    ensures d.editWindowMin >= 1.0 && d.dueAt <= now <= d.dueAt + 60000 ==> CanEditGrade(d, now)
  {
  }

  /** Whether `g` is the grade of `evaluator` for deliverable `dId`. */
  predicate GradeOf(g: Grade, dId: Id, evaluator: Id) {
    g.deliverableId == dId && g.evaluatorId == evaluator
  }

  /** At most one grade per (deliverable, evaluator) pair. */
  predicate UniqueGradeKeys(grades: seq<Grade>) {
    forall i, j :: 0 <= i < j < |grades| ==>
      !GradeOf(grades[j], grades[i].deliverableId, grades[i].evaluatorId)
  }

  /** `db.grades.find(x => x.deliverableId === dId && x.evaluatorId === me.id)`, by position. */
  function FindGrade(grades: seq<Grade>, dId: Id, evaluator: Id): (r: Option<nat>)
    ensures r.Some? ==> r.value < |grades| && GradeOf(grades[r.value], dId, evaluator)
    ensures r.None? <==> forall g :: g in grades ==> !GradeOf(g, dId, evaluator)
  {
    FindIndex(grades, (g: Grade) => GradeOf(g, dId, evaluator))
  }

  /** The store step of the save-grade handler: update the existing grade's
      value and `updatedAt`, or append a new grade created and updated `now`. */
  function UpsertGrade(grades: seq<Grade>, dId: Id, evaluator: Id, value: int, now: int, newId: Id): (r: seq<Grade>)
  {
    match FindGrade(grades, dId, evaluator)
    case Some(k) => grades[k := grades[k].(value := value, updatedAt := now)]
    case None => grades + [Grade(newId, dId, evaluator, value, now, now)]
  }

  /** Storing a grade keeps at most one grade per pair and leaves exactly one
      for this pair, carrying the new value and `updatedAt == now`. An existing
      grade keeps its id, keys and `createdAt` and stays in place; otherwise one
      grade, created `now`, is appended. No other grade changes. */
  lemma {:induction false} UpsertGradeSpec(grades: seq<Grade>, dId: Id, evaluator: Id, value: int, now: int, newId: Id)
    requires UniqueGradeKeys(grades)
    ensures var r := UpsertGrade(grades, dId, evaluator, value, now, newId);
      && UniqueGradeKeys(r)
      && FindGrade(r, dId, evaluator).Some?
      && (forall i :: 0 <= i < |r| && GradeOf(r[i], dId, evaluator) ==> i == FindGrade(r, dId, evaluator).value)
      && r[FindGrade(r, dId, evaluator).value].value == value
      && r[FindGrade(r, dId, evaluator).value].updatedAt == now
      && (forall i :: 0 <= i < |grades| && !GradeOf(grades[i], dId, evaluator) ==> r[i] == grades[i])
    ensures FindGrade(grades, dId, evaluator).Some? ==>
      var k := FindGrade(grades, dId, evaluator).value;
      var r := UpsertGrade(grades, dId, evaluator, value, now, newId);
      && |r| == |grades|
      && FindGrade(r, dId, evaluator) == Some(k)
      && r[k] == grades[k].(value := value, updatedAt := now)
    ensures FindGrade(grades, dId, evaluator).None? ==>
      UpsertGrade(grades, dId, evaluator, value, now, newId)
        == grades + [Grade(newId, dId, evaluator, value, now, now)]
  {
    var r := UpsertGrade(grades, dId, evaluator, value, now, newId);
    match FindGrade(grades, dId, evaluator)
    case Some(k) =>
      FindIndexUpdate(grades, k, r[k], (g: Grade) => GradeOf(g, dId, evaluator));
    case None =>
      var k := |grades|;
      assert GradeOf(r[k], dId, evaluator);
      assert forall i :: 0 <= i < k ==> r[i] == grades[i];
      FindGradeUnique(r, k);
  }

  /** A search whose only hit is the last element returns it. */
  lemma FindGradeUnique(r: seq<Grade>, k: nat)
    requires k < |r|
    requires forall i :: 0 <= i < k ==> !GradeOf(r[i], r[k].deliverableId, r[k].evaluatorId)
    ensures FindGrade(r, r[k].deliverableId, r[k].evaluatorId) == Some(k)
  {
  }

  /** Every grade after storing is an earlier grade or the stored grade of
      this pair, which carries the new value. */
  lemma UpsertGradeMembers(grades: seq<Grade>, dId: Id, evaluator: Id, value: int, now: int, newId: Id)
    ensures forall g :: g in UpsertGrade(grades, dId, evaluator, value, now, newId) ==>
      g in grades || (GradeOf(g, dId, evaluator) && g.value == value)
  {
    var r := UpsertGrade(grades, dId, evaluator, value, now, newId);
    forall g | g in r
      ensures g in grades || (GradeOf(g, dId, evaluator) && g.value == value)
    {
      var i :| 0 <= i < |r| && r[i] == g;
      if i < |grades| && r[i] == grades[i] {
        assert g in grades;
      }
    }
  }

  /** Why the save-grade handler refuses a submission. */
  datatype Rejection = NotJuror | EditWindowClosed | InvalidValue

  /** The save-grade handler once the caller and the deliverable are known:
      the checks in the handler's order, then the store step. */
  function SubmitGrade(grades: seq<Grade>, d: Deliverable, evaluator: Id, raw: NumberValue, now: int, newId: Id)
    : (r: Result<seq<Grade>, Rejection>)
  {
    if evaluator !in d.juryUserIds then Err(NotJuror)
    else if !CanEditGrade(d, now) then Err(EditWindowClosed)
    else match NormalizeGrade(raw)
      case None => Err(InvalidValue)
      case Some(v) => Ok(UpsertGrade(grades, d.id, evaluator, v, now, newId))
  }

  /** A submission is refused for the first failing check: caller not on the
      jury, window closed, value invalid. An accepted one stores the
      normalised value for this juror and keeps at most one grade per pair.
      Once the window has closed every later submission is refused. */
  lemma SubmitGradeSpec(grades: seq<Grade>, d: Deliverable, evaluator: Id, raw: NumberValue, now: int, newId: Id)
    requires UniqueGradeKeys(grades)
    ensures var r := SubmitGrade(grades, d, evaluator, raw, now, newId);
      && (evaluator !in d.juryUserIds ==> r == Err(NotJuror))
      && (evaluator in d.juryUserIds && !CanEditGrade(d, now) ==> r == Err(EditWindowClosed))
      && (evaluator in d.juryUserIds && CanEditGrade(d, now) && NormalizeGrade(raw).None? ==> r == Err(InvalidValue))
      && (r.Ok? <==> evaluator in d.juryUserIds && CanEditGrade(d, now) && NormalizeGrade(raw).Some?)
    ensures var r := SubmitGrade(grades, d, evaluator, raw, now, newId);
      r.Ok? ==>
        && UniqueGradeKeys(r.value)
        && FindGrade(r.value, d.id, evaluator).Some?
        && r.value[FindGrade(r.value, d.id, evaluator).value].value == NormalizeGrade(raw).value
        && 100 <= NormalizeGrade(raw).value <= 1000
  {
    if evaluator in d.juryUserIds && CanEditGrade(d, now) && NormalizeGrade(raw).Some? {
      UpsertGradeSpec(grades, d.id, evaluator, NormalizeGrade(raw).value, now, newId);
    }
  }

  /** `getGradesForDeliverable(db, deliverableId)`: the deliverable's grades, in order. */
  function GradesForDeliverable(grades: seq<Grade>, dId: Id): (r: seq<Grade>)
    ensures |r| <= |grades|
    ensures forall g :: g in r <==> g in grades && g.deliverableId == dId
  {
    if grades == [] then []
    else
      var rest := GradesForDeliverable(grades[1..], dId);
      if grades[0].deliverableId == dId then [grades[0]] + rest else rest
  }

  /** The filter keeps every grade of the deliverable as often as it occurs
      and drops every other grade. */
  lemma {:induction false} GradesForDeliverableCounts(grades: seq<Grade>, dId: Id)
    ensures forall g :: multiset(GradesForDeliverable(grades, dId))[g] ==
                        (if g.deliverableId == dId then multiset(grades)[g] else 0)
  {
    if grades != [] {
      GradesForDeliverableCounts(grades[1..], dId);
      assert grades == [grades[0]] + grades[1..];
    }
  }

  /** The filter keeps the order: filtering a concatenation concatenates the
      filtered parts, and a single grade is kept exactly when it belongs to
      the deliverable. */
  lemma {:induction false} GradesForDeliverableConcat(a: seq<Grade>, b: seq<Grade>, dId: Id)
    ensures GradesForDeliverable(a + b, dId) == GradesForDeliverable(a, dId) + GradesForDeliverable(b, dId)
    ensures forall g :: GradesForDeliverable([g], dId) == if g.deliverableId == dId then [g] else []
  {
    forall g ensures GradesForDeliverable([g], dId) == if g.deliverableId == dId then [g] else [] {
      assert [g][1..] == [];
    }
    if a == [] {
      assert a + b == b;
    } else {
      assert (a + b)[0] == a[0];
      assert (a + b)[1..] == a[1..] + b;
      GradesForDeliverableConcat(a[1..], b, dId);
    }
  }

  /** `grades.map(g => Number(g.value))`. */
  function Values(grades: seq<Grade>): (vs: seq<int>)
    ensures |vs| == |grades|
    ensures forall k :: 0 <= k < |grades| ==> vs[k] == grades[k].value
  {
    seq(|grades|, k requires 0 <= k < |grades| => grades[k].value)
  }
}
