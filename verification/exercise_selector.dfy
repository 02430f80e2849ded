/**
  The exercise picker: a grid of body parts, then that part's exercises,
  where an exercise already picked cannot be picked again.
 */
module ExerciseSelector {
  import opened Wrappers
  import opened Exercises
  import Catalog
  import Workouts
  import Text

  /** `selectedExercises.find(e => e.exerciseId === id)`: the first picked entry with that id. */
  function FindPicked(selected: seq<Workouts.LoggedExercise>, id: string): (r: Option<Workouts.LoggedExercise>)
    ensures r.Some? ==> r.value in selected && r.value.exerciseId == id
    ensures r.Some? ==> exists i :: 0 <= i < |selected| && selected[i] == r.value &&
                                    forall j :: 0 <= j < i ==> selected[j].exerciseId != id
    ensures r.None? ==> forall i :: 0 <= i < |selected| ==> selected[i].exerciseId != id
  {
    if |selected| == 0 then None
    else if selected[0].exerciseId == id then Some(selected[0])
    else
      var r := FindPicked(selected[1..], id);
      assert forall i :: 1 <= i < |selected| ==> selected[i] == selected[1..][i - 1];
      r
  }

  /** `isSelected(id)`: `selectedExercises.some(e => e.exerciseId === id)`. */
  predicate IsSelected(selected: seq<Workouts.LoggedExercise>, id: string) {
    exists i :: 0 <= i < |selected| && selected[i].exerciseId == id
  }

  /** `handleSelect(exercise)`: the exercise handed to `onSelect`, or `None` when it is not called. */
  function HandleSelect(selected: seq<Workouts.LoggedExercise>, e: Exercise): (r: Option<Exercise>)
    ensures r.Some? ==> r.value == e
  {
    if FindPicked(selected, e.id).None? then Some(e) else None
  }

  /**
    The guard and the disabled state agree: a tap picks the exercise exactly
    when its button is enabled, that is when no picked entry has its id.
   */
  lemma SelectGuardAgrees(selected: seq<Workouts.LoggedExercise>, e: Exercise)
    ensures HandleSelect(selected, e).Some? <==> !IsSelected(selected, e.id)
  {
  }

  /** Once picked, an exercise cannot be picked again. */
  lemma NoDoublePick(selected: seq<Workouts.LoggedExercise>, e: Exercise, picked: Workouts.LoggedExercise)
    requires picked.exerciseId == e.id
    ensures HandleSelect(selected + [picked], e).None?
  {
    assert (selected + [picked])[|selected|] == picked;
  }

  /** `activeGroup ? groupedExercises[activeGroup] || [] : []`, grouped without any user order. */
  function ActiveList(custom: seq<Exercise>, active: Option<string>): (r: seq<Exercise>)
    ensures active.None? || active == Some("") ==> r == []
  {
    match active
    case None => []
    case Some(g) =>
      if g == "" then []
      else
        var gr := Catalog.ByMuscleGroup(custom, map[]);
        if g in gr.buckets then gr.buckets[g] else []
  }

  /**
    With an active canonical group the list is the catalog filtered to it;
    a label with no bucket gives an empty list.
   */
  lemma ActiveListFacts(custom: seq<Exercise>, g: string)
    ensures g in MuscleGroups ==> ActiveList(custom, Some(g)) == Catalog.InGroup(Catalog.AllExercises(custom), g)
    ensures g !in MuscleGroups && !Catalog.OccursGroup(Catalog.AllExercises(custom), g) ==> ActiveList(custom, Some(g)) == []
  {
    Catalog.ByMuscleGroupKeys(custom, map[]);
    if g in MuscleGroups {
      Catalog.CanonicalBucketUnordered(custom, map[], g);
      Exercises.MuscleGroupsFacts();
    }
  }

  /** Which view shows: the grid when no group is active (`!activeGroup`), else the group's list. */
  predicate ShowsGrid(active: Option<string>) {
    active.None? || active == Some("")
  }

  /** A tap on a group in the grid, `setActiveGroup(g)`, opens it. */
  function TapGroup(g: string): Option<string> {
    Some(g)
  }

  /** The back button, `setActiveGroup(null)`: the grid shows again, whatever group was open. */
  function TapBack(active: Option<string>): (r: Option<string>)
    ensures ShowsGrid(r)
  {
    None
  }

  /** Opening any canonical group leaves the grid, and back returns to it. */
  lemma GroupThenBack(g: string)
    requires g in MuscleGroups
    ensures !ShowsGrid(TapGroup(g))
    ensures ShowsGrid(TapBack(TapGroup(g)))
  {
    Exercises.MuscleGroupsFacts();
  }

  /** `getDaysAgo`'s label: `Today`, `1 day ago`, or `${diff} days ago`. */
  function LongDaysAgo(diff: int): (r: string)
    ensures diff == 0 <==> r == "Today"
    ensures diff == 1 <==> r == "1 day ago"
    ensures diff != 0 && diff != 1 ==> r == Text.IntToString(diff) + " days ago"
  {
    if diff == 0 then "Today"
    else if diff == 1 then "1 day ago"
    else
      var r := Text.IntToString(diff) + " days ago";
      assert r[|r| - 1] == 'o' && "Today"[4] == 'y';
      assert r[|r| - 5] == 's' && "1 day ago"[4] == 'y';
      r
  }

  /** Different day counts get different labels. */
  lemma LongDaysAgoInjective(a: int, b: int)
    requires LongDaysAgo(a) == LongDaysAgo(b)
    ensures a == b
  {
    if a != 0 && a != 1 && b != 0 && b != 1 {
      var sa, sb := Text.IntToString(a), Text.IntToString(b);
      assert (sa + " days ago")[..|sa|] == sa;
      assert |sa| == |sb|;
      assert (sb + " days ago")[..|sb|] == sb;
      Text.IntToStringInjective(a, b);
    }
  }

  /** The label under a group in the grid: none for a group never trained. */
  function DaysAgo(last: map<string, int>, group: string, today: int): (r: Option<string>)
    ensures r.None? <==> group !in last
    ensures group in last ==> r == Some(LongDaysAgo(today - last[group]))
  {
    if group in last then Some(LongDaysAgo(today - last[group])) else None
  }
}
