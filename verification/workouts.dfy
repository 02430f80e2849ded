/**
  Logged workouts and the pure parts of the workout service: the
  newest-first sort of `getWorkouts` and the last-trained reduction of
  `getLastWorkoutByMuscleGroup`. A date is a whole day number.
 */
module Workouts {
  import opened Wrappers
  import StableSort

  /** One saved set: `parseInt(reps) || 0` and `parseFloat(weight) || 0`. */
  datatype SavedSet = SavedSet(reps: int, weight: real)

  /**
    One exercise of a workout record. `muscleGroup` is `None` when the
    record has no such field.
   */
  datatype LoggedExercise = LoggedExercise(
    muscleGroup: Option<string>,
    exerciseId: string,
    exerciseName: string,
    sets: seq<SavedSet>)

  datatype Workout = Workout(id: string, date: int, exercises: seq<LoggedExercise>)

  // ----- Newest first -----

  function NewestFirstKey(): Workout -> int {
    (w: Workout) => -w.date
  }

  /** `workouts.sort((a, b) => b.date - a.date)`. */
  function NewestFirst(ws: seq<Workout>): (r: seq<Workout>)
    ensures multiset(r) == multiset(ws)
    ensures forall i, j :: 0 <= i < j < |r| ==> r[i].date >= r[j].date
  {
    var r := StableSort.Sort(ws, NewestFirstKey());
    assert forall i, j :: 0 <= i < j < |r| ==> r[i].date >= r[j].date by {
      forall i, j | 0 <= i < j < |r|
        ensures r[i].date >= r[j].date
      {
        assert NewestFirstKey()(r[i]) <= NewestFirstKey()(r[j]);
      }
    }
    r
  }

  /** Workouts of the same day keep their stored order. */
  lemma NewestFirstStable(ws: seq<Workout>, day: int)
    ensures StableSort.WithKey(NewestFirst(ws), NewestFirstKey(), -day)
         == StableSort.WithKey(ws, NewestFirstKey(), -day)
  {
    StableSort.SortStable(ws, NewestFirstKey(), -day);
  }

  // ----- Last trained -----

  /** Some exercise of `es` has the non-empty muscle group `g` (`if (group)` skips `''` and a missing one). */
  predicate Mentions(es: seq<LoggedExercise>, g: string) {
    g != "" && exists i :: 0 <= i < |es| && es[i].muscleGroup == Some(g)
  }

  predicate Trains(w: Workout, g: string) {
    Mentions(w.exercises, g)
  }

  /** `if (!last[g] || date > last[g]) last[g] = date`. */
  function Record(m: map<string, int>, g: string, date: int): (r: map<string, int>)
    ensures g in r && r.Keys == m.Keys + {g}
    ensures r[g] == if g in m && m[g] >= date then m[g] else date
    ensures forall h :: h in m && h != g ==> r[h] == m[h]
  {
    if g !in m || date > m[g] then m[g := date] else m
  }

  /** The inner `forEach` over one workout's exercises. */
  function AbsorbExercises(m: map<string, int>, date: int, es: seq<LoggedExercise>): map<string, int> {
    if |es| == 0 then m
    else
      var r := AbsorbExercises(m, date, es[..|es| - 1]);
      match es[|es| - 1].muscleGroup
      case None => r
      case Some(g) => if g == "" then r else Record(r, g, date)
  }

  /** The outer `forEach` over the workouts. */
  function LastTrained(ws: seq<Workout>): map<string, int> {
    if |ws| == 0 then map[]
    else
      var w := ws[|ws| - 1];
      AbsorbExercises(LastTrained(ws[..|ws| - 1]), w.date, w.exercises)
  }

  lemma MentionsSnoc(es: seq<LoggedExercise>, g: string)
    requires |es| > 0
    ensures Mentions(es, g) <==>
              Mentions(es[..|es| - 1], g) || (g != "" && es[|es| - 1].muscleGroup == Some(g))
  {
    var p := es[..|es| - 1];
    assert forall i :: 0 <= i < |p| ==> p[i] == es[i];
    if Mentions(es, g) && !Mentions(p, g) {
      var i :| 0 <= i < |es| && es[i].muscleGroup == Some(g);
    }
  }

  /**
    One workout's exercises raise the entry of every group they mention to
    at least the workout's date and leave the other entries alone.
   */
  lemma {:induction false} AbsorbExercisesSpec(m: map<string, int>, date: int, es: seq<LoggedExercise>)
    ensures forall g :: g in AbsorbExercises(m, date, es) <==> g in m || Mentions(es, g)
    ensures forall g :: g in AbsorbExercises(m, date, es) ==>
              AbsorbExercises(m, date, es)[g]
              == if !Mentions(es, g) then m[g]
                 else if g in m && m[g] >= date then m[g]
                 else date
  {
    if |es| > 0 {
      var p := es[..|es| - 1];
      AbsorbExercisesSpec(m, date, p);
      forall g
        ensures Mentions(es, g) <==> Mentions(p, g) || (g != "" && es[|es| - 1].muscleGroup == Some(g))
      {
        MentionsSnoc(es, g);
      }
    }
  }

  /**
    `m` is the last-trained map of `ws`: a group is a key exactly when some
    workout trains it, and its value is the date of such a workout that no
    other workout training it is later than.
   */
  ghost predicate IsLastTrained(ws: seq<Workout>, m: map<string, int>) {
    && (forall g :: g in m <==> exists w :: w in ws && Trains(w, g))
    && (forall g :: g in m ==> exists w :: w in ws && Trains(w, g) && w.date == m[g])
    && (forall g, w :: g in m && w in ws && Trains(w, g) ==> w.date <= m[g])
  }

  lemma {:induction false} LastTrainedSpec(ws: seq<Workout>)
    ensures IsLastTrained(ws, LastTrained(ws))
  {
    if |ws| > 0 {
      var p := ws[..|ws| - 1];
      var w := ws[|ws| - 1];
      var m := LastTrained(p);
      LastTrainedSpec(p);
      AbsorbExercisesSpec(m, w.date, w.exercises);
      var r := LastTrained(ws);
      assert ws == p + [w];
      assert forall v :: v in ws <==> v in p || v == w;
      forall g | g in r
        ensures exists v :: v in ws && Trains(v, g) && v.date == r[g]
      {
        if Trains(w, g) && !(g in m && m[g] >= w.date) {
          assert w in ws && Trains(w, g) && w.date == r[g];
        } else {
          var v :| v in p && Trains(v, g) && v.date == m[g];
          assert v in ws && Trains(v, g) && v.date == r[g];
        }
      }
    }
  }

  /** Two lists with the same workouts have only one last-trained map between them. */
  lemma IsLastTrainedUnique(ws: seq<Workout>, vs: seq<Workout>, a: map<string, int>, b: map<string, int>)
    requires forall w :: w in ws <==> w in vs
    requires IsLastTrained(ws, a) && IsLastTrained(vs, b)
    ensures a == b
  {
    forall g | g in a
      ensures a[g] == b[g]
    {
      var v :| v in ws && Trains(v, g) && v.date == a[g];
      var u :| u in vs && Trains(u, g) && u.date == b[g];
    }
  }

  /**
    The result depends only on which workouts there are, not on their order
    or repetition: two lists with the same workouts give the same map.
   */
  lemma LastTrainedOrderIndependent(ws: seq<Workout>, vs: seq<Workout>)
    requires forall w :: w in ws <==> w in vs
    ensures LastTrained(ws) == LastTrained(vs)
  {
    LastTrainedSpec(ws);
    LastTrainedSpec(vs);
    IsLastTrainedUnique(ws, vs, LastTrained(ws), LastTrained(vs));
  }

  /** `getLastWorkoutByMuscleGroup` reads the sorted list; the sort does not change the answer. */
  lemma LastTrainedOfNewestFirst(ws: seq<Workout>)
    ensures LastTrained(NewestFirst(ws)) == LastTrained(ws)
  {
    var r := NewestFirst(ws);
    forall w
      ensures w in r <==> w in ws
    {
      assert w in r <==> w in multiset(r);
      assert w in ws <==> w in multiset(ws);
    }
    LastTrainedOrderIndependent(r, ws);
  }

  /** An exercise without a muscle group, or with an empty one, never creates a key. */
  lemma UngroupedIgnored(ws: seq<Workout>)
    ensures "" !in LastTrained(ws)
  {
    LastTrainedSpec(ws);
  }
}
