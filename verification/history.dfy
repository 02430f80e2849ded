/**
  The history page: loading the list, its two counters, and deleting a
  workout. The outcome of each storage call is a parameter.
 */
module History {
  import opened Wrappers
  import Workouts
  import Seqs

  datatype Page = Page(workouts: seq<Workouts.Workout>, loading: bool, error: Option<string>)

  /** `useState([])`, `useState(true)`, `useState(null)`. */
  const Initial := Page([], true, None)

  /**
    The effect on sign-in: with no user loading just stops; otherwise the
    fetched list (`None` when `getWorkouts` throws) replaces the empty one,
    or the load error is set, and loading stops either way.
   */
  function Load(p: Page, signedIn: bool, fetched: Option<seq<Workouts.Workout>>): (r: Page)
    ensures !r.loading
    ensures !signedIn ==> r.workouts == p.workouts && r.error == p.error
    ensures signedIn && fetched.Some? ==> r.workouts == fetched.value && r.error == p.error
    ensures signedIn && fetched.None? ==> r.workouts == p.workouts && r.error == Some("Failed to load workouts")
  {
    if !signedIn then p.(loading := false)
    else match fetched
      case Some(ws) => p.(workouts := ws, loading := false)
      case None => p.(error := Some("Failed to load workouts"), loading := false)
  }

  /** `w => w.id !== workoutId`: the workouts a delete of `id` keeps. */
  function OtherThan(id: string): Workouts.Workout -> bool {
    (w: Workouts.Workout) => w.id != id
  }

  /**
    `handleDelete(workoutId)`: when the stored delete succeeds the list loses
    every workout with that id and keeps the rest in order; when it fails the
    list stays and the delete error is set.
   */
  function Delete(p: Page, id: string, succeeded: bool): (r: Page)
    ensures r.loading == p.loading
    ensures succeeded ==>
              Seqs.SubsequenceOf(r.workouts, p.workouts)
              && (forall w :: w in r.workouts <==> w in p.workouts && w.id != id)
              && |r.workouts| == Seqs.Count(p.workouts, OtherThan(id))
              && r.error == p.error
    ensures !succeeded ==> r.workouts == p.workouts && r.error == Some("Failed to delete workout")
  {
    if succeeded then p.(workouts := Seqs.Filter(p.workouts, OtherThan(id)))
    else p.(error := Some("Failed to delete workout"))
  }

  /** Deleting an id no workout has leaves the list as it is. */
  lemma DeleteAbsent(p: Page, id: string)
    requires forall w :: w in p.workouts ==> w.id != id
    ensures Delete(p, id, true) == p
  {
    Seqs.FilterAll(p.workouts, OtherThan(id));
  }

  /** A second delete of the same id, after a successful one, changes nothing. */
  lemma DeleteIdempotent(p: Page, id: string)
    ensures Delete(Delete(p, id, true), id, true) == Delete(p, id, true)
  {
    DeleteAbsent(Delete(p, id, true), id);
  }

  /** `totalWorkouts`: `workouts.length`. */
  function TotalWorkouts(ws: seq<Workouts.Workout>): nat {
    |ws|
  }

  /** Less than seven days old on `today`, a day number; a future date counts. */
  function WithinWeek(today: int): Workouts.Workout -> bool {
    (w: Workouts.Workout) => today - w.date < 7
  }

  /** Seven or more days old on `today`. */
  function OlderThanWeek(today: int): Workouts.Workout -> bool {
    (w: Workouts.Workout) => today - w.date >= 7
  }

  /** `thisWeek`: how many workouts are within the week. */
  function ThisWeek(ws: seq<Workouts.Workout>, today: int): (n: nat)
    ensures n == 0 <==> forall w :: w in ws ==> today - w.date >= 7
  {
    |Seqs.Filter(ws, WithinWeek(today))|
  }

  /**
    The workouts within the week and the older ones together make the total,
    so the week's count never exceeds it.
   */
  lemma ThisWeekPartition(ws: seq<Workouts.Workout>, today: int)
    ensures ThisWeek(ws, today) + |Seqs.Filter(ws, OlderThanWeek(today))| == TotalWorkouts(ws)
    ensures ThisWeek(ws, today) <= TotalWorkouts(ws)
    ensures forall w :: w in Seqs.Filter(ws, OlderThanWeek(today)) <==> w in ws && today - w.date >= 7
  {
    Seqs.FilterPartition(ws, WithinWeek(today), OlderThanWeek(today));
  }

  /** When every workout is dated today or later, all of them count this week. */
  lemma FutureWorkoutsCount(ws: seq<Workouts.Workout>, today: int)
    requires forall w :: w in ws ==> w.date >= today
    ensures ThisWeek(ws, today) == TotalWorkouts(ws)
  {
    ThisWeekPartition(ws, today);
  }

  /** The stats row: only once loaded and with at least one workout. */
  predicate ShowsStats(p: Page) {
    !p.loading && |p.workouts| > 0
  }

  /** A signed-in load that fetched something non-empty shows the stats; a failed first load does not. */
  lemma StatsAfterLoad(fetched: Option<seq<Workouts.Workout>>)
    ensures ShowsStats(Load(Initial, true, fetched)) <==> fetched.Some? && |fetched.value| > 0
    ensures !ShowsStats(Load(Initial, false, fetched))
  {
  }
}
