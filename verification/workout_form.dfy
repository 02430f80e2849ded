/**
  The workout-logging wizard: body part, then exercise, then number of
  sets, then the set inputs, with a back button that undoes one step.
  `parseInt` and `parseFloat` are parameters: `None` stands for `NaN`.
 */
module WorkoutForm {
  import opened Wrappers
  import opened Exercises
  import Catalog
  import Workouts
  import Seqs
  import Text

  datatype Step = BodyPart | ChooseExercise | ChooseSets | Input

  /** One row of the input step, as typed: `{reps: '', weight: ''}` when blank. */
  datatype SetDraft = SetDraft(reps: string, weight: string)

  datatype Field = Reps | Weight

  datatype Form = Form(
    step: Step,
    bodyPart: Option<string>,
    exercise: Option<Exercise>,
    numSets: Option<nat>,
    sets: seq<SetDraft>)

  /** The form as first rendered. */
  const Start := Form(BodyPart, None, None, None, [])

  /**
    What each step has recorded: exactly the choices made before it, and in
    the input step one row per chosen set.
   */
  predicate Consistent(f: Form) {
    match f.step
    case BodyPart => f.bodyPart.None? && f.exercise.None? && f.numSets.None? && f.sets == []
    case ChooseExercise => f.bodyPart.Some? && f.exercise.None? && f.numSets.None? && f.sets == []
    case ChooseSets => f.bodyPart.Some? && f.exercise.Some? && f.numSets.None? && f.sets == []
    case Input => f.bodyPart.Some? && f.exercise.Some? && f.numSets.Some? && |f.sets| == f.numSets.value
  }

  /** `handleSelectBodyPart`. */
  function SelectBodyPart(f: Form, g: string): (r: Form)
    requires Consistent(f) && f.step == BodyPart
    ensures Consistent(r) && r.step == ChooseExercise && r.bodyPart == Some(g)
  {
    f.(bodyPart := Some(g), step := ChooseExercise)
  }

  /** `handleSelectExercise`. */
  function SelectExercise(f: Form, e: Exercise): (r: Form)
    requires Consistent(f) && f.step == ChooseExercise
    ensures Consistent(r) && r.step == ChooseSets && r.exercise == Some(e) && r.bodyPart == f.bodyPart
  {
    f.(exercise := Some(e), step := ChooseSets)
  }

  /** `Array(n).fill(null).map(() => ({reps: '', weight: ''}))`. */
  function BlankSets(n: nat): (r: seq<SetDraft>)
    ensures |r| == n && forall i :: 0 <= i < n ==> r[i] == SetDraft("", "")
  {
    seq(n, _ => SetDraft("", ""))
  }

  /** `handleSelectSets`: `n` blank rows. */
  function SelectSets(f: Form, n: nat): (r: Form)
    requires Consistent(f) && f.step == ChooseSets
    ensures Consistent(r) && r.step == Input && r.numSets == Some(n) && r.sets == BlankSets(n)
    ensures r.bodyPart == f.bodyPart && r.exercise == f.exercise
  {
    f.(numSets := Some(n), sets := BlankSets(n), step := Input)
  }

  function SetField(d: SetDraft, field: Field, value: string): SetDraft {
    match field
    case Reps => d.(reps := value)
    case Weight => d.(weight := value)
  }

  /** `handleUpdateSet(index, field, value)`: rewrites one field of one row; an index out of range changes nothing. */
  function UpdateSet(f: Form, index: int, field: Field, value: string): (r: Form)
    ensures r.step == f.step && r.bodyPart == f.bodyPart && r.exercise == f.exercise && r.numSets == f.numSets
    ensures |r.sets| == |f.sets|
    ensures forall i :: 0 <= i < |f.sets| && i != index ==> r.sets[i] == f.sets[i]
    ensures 0 <= index < |f.sets| ==>
              (field == Reps ==> r.sets[index].reps == value && r.sets[index].weight == f.sets[index].weight)
              && (field == Weight ==> r.sets[index].weight == value && r.sets[index].reps == f.sets[index].reps)
    ensures Consistent(f) ==> Consistent(r)
  {
    f.(sets := seq(|f.sets|, i requires 0 <= i < |f.sets| =>
                     if i == index then SetField(f.sets[i], field, value) else f.sets[i]))
  }

  /** `handleBack`: one step back, forgetting only that step's choice; nothing happens on the first step. */
  function Back(f: Form): (r: Form)
    requires Consistent(f)
    ensures Consistent(r)
  {
    match f.step
    case BodyPart => f
    case ChooseExercise => f.(step := BodyPart, bodyPart := None)
    case ChooseSets => f.(step := ChooseExercise, exercise := None)
    case Input => f.(step := ChooseSets, numSets := None, sets := [])
  }

  /** Going forward and then back returns to the same form, on every step. */
  lemma BackUndoesSelect(f: Form, g: string, e: Exercise, n: nat)
    requires Consistent(f)
    ensures f.step == BodyPart ==> Back(SelectBodyPart(f, g)) == f
    ensures f.step == ChooseExercise ==> Back(SelectExercise(f, e)) == f
    ensures f.step == ChooseSets ==> Back(SelectSets(f, n)) == f
  {
  }

  /** Back on the first step is a no-op; elsewhere it moves exactly one step back. */
  lemma BackMovesOneStep(f: Form)
    requires Consistent(f)
    ensures f.step == BodyPart ==> Back(f) == f
    ensures f.step == ChooseExercise ==> Back(f).step == BodyPart && Back(f).bodyPart.None?
    ensures f.step == ChooseSets ==> Back(f).step == ChooseExercise && Back(f).bodyPart == f.bodyPart
    ensures f.step == Input ==>
              Back(f).step == ChooseSets && Back(f).exercise == f.exercise && Back(f).bodyPart == f.bodyPart
  {
  }

  // ----- Submitting -----

  /** `{reps: parseInt(s.reps) || 0, weight: parseFloat(s.weight) || 0}`. */
  function Parse(parseInt: string -> Option<int>, parseFloat: string -> Option<real>, d: SetDraft): Workouts.SavedSet {
    Workouts.SavedSet(parseInt(d.reps).GetOr(0), parseFloat(d.weight).GetOr(0.0))
  }

  predicate Counts(s: Workouts.SavedSet) {
    s.reps > 0 || s.weight > 0.0
  }

  /** `setsData.map(...)`: every row parsed. */
  function ParsedRows(parseInt: string -> Option<int>, parseFloat: string -> Option<real>, ds: seq<SetDraft>)
    : (r: seq<Workouts.SavedSet>)
    ensures |r| == |ds| && forall i :: 0 <= i < |ds| ==> r[i] == Parse(parseInt, parseFloat, ds[i])
  {
    seq(|ds|, i requires 0 <= i < |ds| => Parse(parseInt, parseFloat, ds[i]))
  }

  /** `s => s.reps > 0 || s.weight > 0` as a function value. */
  function Counting(): Workouts.SavedSet -> bool {
    (s: Workouts.SavedSet) => Counts(s)
  }

  /** `validSets` of `handleSubmit`: the parsed rows that count, in row order. */
  function ValidSets(parseInt: string -> Option<int>, parseFloat: string -> Option<real>, ds: seq<SetDraft>)
    : (r: seq<Workouts.SavedSet>)
    ensures Seqs.SubsequenceOf(r, ParsedRows(parseInt, parseFloat, ds))
    ensures forall x :: x in r <==> x in ParsedRows(parseInt, parseFloat, ds) && Counts(x)
    ensures |r| == Seqs.Count(ParsedRows(parseInt, parseFloat, ds), Counting())
  {
    Seqs.Filter(ParsedRows(parseInt, parseFloat, ds), Counting())
  }

  /** `isValid`: some row parses to positive reps or positive weight. */
  predicate IsValid(parseInt: string -> Option<int>, parseFloat: string -> Option<real>, ds: seq<SetDraft>) {
    exists i :: 0 <= i < |ds| && Counts(Parse(parseInt, parseFloat, ds[i]))
  }

  /** The submit button's rule and the submit handler's rule agree. */
  lemma ValidIffSetsToSave(parseInt: string -> Option<int>, parseFloat: string -> Option<real>, ds: seq<SetDraft>)
    ensures IsValid(parseInt, parseFloat, ds) <==> |ValidSets(parseInt, parseFloat, ds)| > 0
  {
    var r := ValidSets(parseInt, parseFloat, ds);
    var rows := ParsedRows(parseInt, parseFloat, ds);
    if |r| > 0 {
      assert r[0] in rows;
    }
    if IsValid(parseInt, parseFloat, ds) {
      var i :| 0 <= i < |ds| && Counts(Parse(parseInt, parseFloat, ds[i]));
      assert rows[i] in r;
    }
  }

  /** What `onSave` receives: the day and a single logged exercise. */
  datatype NewWorkout = NewWorkout(date: int, exercises: seq<Workouts.LoggedExercise>)

  /**
    `handleSubmit` on the input step: nothing when no row counts, otherwise
    one exercise carrying the chosen body part, the exercise's id and name,
    and the counting rows. `today` stands for the current date.
   */
  function Submit(parseInt: string -> Option<int>, parseFloat: string -> Option<real>, f: Form, today: int)
    : (r: Option<NewWorkout>)
    requires Consistent(f) && f.step == Input
    ensures r.Some? <==> IsValid(parseInt, parseFloat, f.sets)
    ensures r.Some? ==>
              r.value.date == today && |r.value.exercises| == 1
              && r.value.exercises[0].muscleGroup == f.bodyPart
              && r.value.exercises[0].exerciseId == f.exercise.value.id
              && r.value.exercises[0].exerciseName == f.exercise.value.name
              && r.value.exercises[0].sets == ValidSets(parseInt, parseFloat, f.sets)
  {
    ValidIffSetsToSave(parseInt, parseFloat, f.sets);
    var valid := ValidSets(parseInt, parseFloat, f.sets);
    if |valid| == 0 then None
    else
      Some(NewWorkout(today, [Workouts.LoggedExercise(f.bodyPart, f.exercise.value.id, f.exercise.value.name, valid)]))
  }

  /** Freshly chosen sets are all blank, so with `parseInt('')` and `parseFloat('')` being `NaN` nothing can be saved yet. */
  lemma BlankFormSavesNothing(parseInt: string -> Option<int>, parseFloat: string -> Option<real>, f: Form, n: nat, today: int)
    requires parseInt("").None? && parseFloat("").None?
    requires Consistent(f) && f.step == ChooseSets
    ensures Submit(parseInt, parseFloat, SelectSets(f, n), today).None?
  {
  }

  // ----- Labels and lists -----

  /** `${diff}d ago`, `Today` or `Yesterday` for a whole number of days. */
  function ShortDaysAgo(diff: int): (r: string)
    ensures diff == 0 <==> r == "Today"
    ensures diff == 1 <==> r == "Yesterday"
    ensures diff != 0 && diff != 1 ==> r == Text.IntToString(diff) + "d ago"
  {
    if diff == 0 then "Today"
    else if diff == 1 then "Yesterday"
    else
      var r := Text.IntToString(diff) + "d ago";
      assert r[|r| - 1] == 'o' && "Today"[4] == 'y' && "Yesterday"[8] == 'y';
      r
  }

  /** Different day counts get different labels. */
  lemma ShortDaysAgoInjective(a: int, b: int)
    requires ShortDaysAgo(a) == ShortDaysAgo(b)
    ensures a == b
  {
    if a != 0 && a != 1 && b != 0 && b != 1 {
      var sa, sb := Text.IntToString(a), Text.IntToString(b);
      assert (sa + "d ago")[..|sa|] == sa;
      assert |sa| == |sb|;
      assert (sb + "d ago")[..|sb|] == sb;
      Text.IntToStringInjective(a, b);
    }
  }

  /**
    `getDaysAgo(group)`: no label for a group never trained, otherwise the
    label for the days since its last-trained date.
   */
  function DaysAgo(last: map<string, int>, group: string, today: int): (r: Option<string>)
    ensures r.None? <==> group !in last
    ensures group in last ==> r == Some(ShortDaysAgo(today - last[group]))
  {
    if group in last then Some(ShortDaysAgo(today - last[group])) else None
  }

  /** The exercise step's list: `groupedExercises[selectedBodyPart] || []`, grouped without any user order. */
  function ExerciseChoices(custom: seq<Exercise>, bodyPart: string): seq<Exercise> {
    var gr := Catalog.ByMuscleGroup(custom, map[]);
    if bodyPart in gr.buckets then gr.buckets[bodyPart] else []
  }

  /** For a canonical body part the list is the catalog filtered to it, in catalog order. */
  lemma ExerciseChoicesCanonical(custom: seq<Exercise>, bodyPart: string)
    requires bodyPart in MuscleGroups
    ensures ExerciseChoices(custom, bodyPart) == Catalog.InGroup(Catalog.AllExercises(custom), bodyPart)
  {
    Catalog.CanonicalBucketUnordered(custom, map[], bodyPart);
  }
}
