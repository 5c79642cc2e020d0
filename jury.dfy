/** Drawing a deliverable's jury once it is due. */
module Jury {
  import opened Records
  import opened Shuffling

  function Smaller(a: int, b: int): int {
    if a <= b then a else b
  }

  /** How many ids `assignJuryIfDue` keeps from a shuffled pool of `poolSize`
      users: `Math.min(Math.max(3, Number(jurySize) || 3), poolSize)`, the
      bound `slice` then truncates to an integer. */
  function JuryCount(jurySize: NumberValue, poolSize: nat): (c: nat)
    ensures c <= poolSize
  {
    match jurySize
    case Finite(x) => if x <= 3.0 then Smaller(3, poolSize) else Smaller(x.Floor, poolSize)
    case PosInfinity => poolSize
    case _ => Smaller(3, poolSize)
  }

  /** The jury size falls back to 3 when it is not a number and is raised to 3
      when smaller; a whole size asks for `max(3, size)` jurors, all of the
      pool when the pool is smaller; a non-empty pool always yields a juror. */
  lemma JuryCountSpec(jurySize: NumberValue, poolSize: nat)
    ensures jurySize.NaN? || jurySize.NegInfinity? ==> JuryCount(jurySize, poolSize) == Smaller(3, poolSize)
    ensures jurySize.PosInfinity? ==> JuryCount(jurySize, poolSize) == poolSize
    ensures jurySize.Finite? && jurySize.r == jurySize.r.Floor as real ==>
      var n := jurySize.r.Floor;
      JuryCount(jurySize, poolSize) == Smaller(if n < 3 then 3 else n, poolSize)
    ensures poolSize > 0 ==> JuryCount(jurySize, poolSize) > 0
  {
  }

  /** `assignJuryIfDue(db, deliverable)` for the eligible `pool`, the clock
      reading `now` and the shuffle's random `draws`: nothing happens when a
      jury is already assigned or the deliverable is not due yet, and only the
      jury ever changes. */
  function AssignJuryIfDue(d: Deliverable, pool: seq<User>, now: int, draws: seq<nat>): (r: Deliverable)
    requires DrawsFit(draws, |pool|)
    ensures |d.juryUserIds| > 0 ==> r == d
    ensures now < d.dueAt ==> r == d
    ensures r == d.(juryUserIds := r.juryUserIds)
  {
    if |d.juryUserIds| > 0 then d
    else if now < d.dueAt then d
    else d.(juryUserIds := Ids(Shuffled(pool, draws)[..JuryCount(d.jurySize, |pool|)]))
  }

  /** The body of `assignJuryIfDue` as it runs: return early, or shuffle the
      pool in place and keep the first `JuryCount` ids. */
  method DrawJury(d: Deliverable, pool: seq<User>, now: int, draws: seq<nat>) returns (r: Deliverable)
    requires DrawsFit(draws, |pool|)
    ensures r == AssignJuryIfDue(d, pool, now, draws)
  {
    if |d.juryUserIds| > 0 || now < d.dueAt {
      return d;
    }
    var shuffled := Shuffle(pool, draws);
    var chosen := Ids(shuffled[..JuryCount(d.jurySize, |pool|)]);
    return d.(juryUserIds := chosen);
  }

  /** A jury drawn at or after the due time from a pool with distinct ids
      holds exactly `JuryCount` distinct ids, all from the pool, and is empty
      only when the pool is. */
  lemma {:induction false} JuryDrawn(d: Deliverable, pool: seq<User>, now: int, draws: seq<nat>)
    requires DrawsFit(draws, |pool|) && Distinct(Ids(pool))
    requires |d.juryUserIds| == 0 && d.dueAt <= now
    ensures var jury := AssignJuryIfDue(d, pool, now, draws).juryUserIds;
      && |jury| == JuryCount(d.jurySize, |pool|)
      && Distinct(jury)
      && (forall id :: id in jury ==> id in Ids(pool))
      && (|jury| > 0 <==> |pool| > 0)
  {
    var n := JuryCount(d.jurySize, |pool|);
    ShuffledPrefixIds(pool, draws, n);
    JuryCountSpec(d.jurySize, |pool|);
  }

  /** Once a jury is assigned, no later call changes it, whatever the clock,
      the eligible pool or the random draws. */
  lemma JuryFrozen(d: Deliverable, pool: seq<User>, now: int, draws: seq<nat>,
                   pool': seq<User>, now': int, draws': seq<nat>)
    requires DrawsFit(draws, |pool|) && DrawsFit(draws', |pool'|)
    requires |AssignJuryIfDue(d, pool, now, draws).juryUserIds| > 0
    ensures var r := AssignJuryIfDue(d, pool, now, draws);
      AssignJuryIfDue(r, pool', now', draws') == r
  {
  }
}
