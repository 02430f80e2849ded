/**
  The settings store: the reducer behind the settings context, its initial
  state, and the document `saveSettings` writes. Every operation of the
  context dispatches one action and then saves a document built from the
  state it was called with; `SavedMatchesReducer` shows the two agree.
 */
module Settings {
  import opened Wrappers
  import opened Exercises
  import Seqs
  import Text

  datatype State = State(
    units: string,
    customExercises: seq<Exercise>,
    exerciseOrder: map<string, seq<string>>,
    loading: bool)

  /** `initialState`: pounds, no custom exercises, no ordering, still loading. */
  const Initial := State("lbs", [], map[], true)

  /**
    A partial settings object: the document read back from storage, or the
    argument of `saveSettings`. `None` is a missing (or, for `??`, null) field.
   */
  datatype Partial = Partial(
    units: Option<string>,
    customExercises: Option<seq<Exercise>>,
    exerciseOrder: Option<map<string, seq<string>>>)

  datatype Action =
    | SetSettings(payload: Partial)
    | SetUnits(units: string)
    | AddCustomExercise(exercise: Exercise)
    | DeleteCustomExercise(id: string)
    | SetExerciseOrder(group: string, orderedIds: seq<string>)
    | SetLoading(loading: bool)
    | Reset
    | Unknown(tag: string)

  /** `e => e.id !== id`: the custom exercises a delete of `id` keeps. */
  function OtherThan(id: string): Exercise -> bool {
    (e: Exercise) => e.id != id
  }

  /** `settingsReducer(state, action)`. */
  function Reduce(s: State, a: Action): (r: State)
    ensures a.SetSettings? ==> !r.loading
    ensures a.SetUnits? ==>
              r.units == a.units && r.customExercises == s.customExercises
              && r.exerciseOrder == s.exerciseOrder && r.loading == s.loading
    ensures a.AddCustomExercise? ==>
              |r.customExercises| == |s.customExercises| + 1
              && r.customExercises[..|s.customExercises|] == s.customExercises
              && r.customExercises[|s.customExercises|] == a.exercise
              && r.units == s.units && r.exerciseOrder == s.exerciseOrder && r.loading == s.loading
    ensures a.DeleteCustomExercise? ==>
              Seqs.SubsequenceOf(r.customExercises, s.customExercises)
              && (forall e :: e in r.customExercises <==> e in s.customExercises && e.id != a.id)
              && |r.customExercises| == Seqs.Count(s.customExercises, OtherThan(a.id))
              && r.units == s.units && r.exerciseOrder == s.exerciseOrder && r.loading == s.loading
    ensures a.SetExerciseOrder? ==>
              a.group in r.exerciseOrder && r.exerciseOrder[a.group] == a.orderedIds
              && (forall g :: g != a.group ==> (g in r.exerciseOrder <==> g in s.exerciseOrder))
              && (forall g :: g != a.group && g in s.exerciseOrder ==> r.exerciseOrder[g] == s.exerciseOrder[g])
              && r.units == s.units && r.customExercises == s.customExercises && r.loading == s.loading
    ensures a.SetLoading? ==> r == s.(loading := a.loading)
    ensures a.Reset? ==> r == Initial
    ensures a.Unknown? ==> r == s
  {
    match a
    case SetSettings(p) =>
      State(p.units.GetOr(s.units), p.customExercises.GetOr(s.customExercises),
            p.exerciseOrder.GetOr(s.exerciseOrder), false)
    case SetUnits(u) => s.(units := u)
    case AddCustomExercise(e) => s.(customExercises := s.customExercises + [e])
    case DeleteCustomExercise(id) => s.(customExercises := Seqs.Filter(s.customExercises, OtherThan(id)))
    case SetExerciseOrder(g, ids) => s.(exerciseOrder := s.exerciseOrder[g := ids])
    case SetLoading(b) => s.(loading := b)
    case Reset => Initial
    case Unknown(_) => s
  }

  /**
    Loading settings overlays the stored fields: a field the document has
    replaces the state's, a missing one keeps it, and loading ends.
   */
  lemma SetSettingsOverlay(s: State, p: Partial)
    ensures Reduce(s, SetSettings(p)).units == (if p.units.Some? then p.units.value else s.units)
    ensures Reduce(s, SetSettings(p)).customExercises
            == (if p.customExercises.Some? then p.customExercises.value else s.customExercises)
    ensures Reduce(s, SetSettings(p)).exerciseOrder
            == (if p.exerciseOrder.Some? then p.exerciseOrder.value else s.exerciseOrder)
    ensures !Reduce(s, SetSettings(p)).loading
  {
  }

  /** Applying the same stored document twice is the same as once. */
  lemma SetSettingsIdempotent(s: State, p: Partial)
    ensures Reduce(Reduce(s, SetSettings(p)), SetSettings(p)) == Reduce(s, SetSettings(p))
  {
  }

  /** Reset yields the initial state from any state. */
  lemma ResetFromAnyState(s: State, t: State)
    ensures Reduce(s, Reset) == Reduce(t, Reset)
    ensures Reduce(s, Reset).units == "lbs" && Reduce(s, Reset).customExercises == []
    ensures Reduce(s, Reset).exerciseOrder == map[] && Reduce(s, Reset).loading
  {
  }

  /** The later of two unit changes wins. */
  lemma SetUnitsLastWins(s: State, a: string, b: string)
    ensures Reduce(Reduce(s, SetUnits(a)), SetUnits(b)) == Reduce(s, SetUnits(b))
  {
  }

  /** Deleting an id that no custom exercise has is a no-op. */
  lemma DeleteAbsentId(s: State, id: string)
    requires forall e :: e in s.customExercises ==> e.id != id
    ensures Reduce(s, DeleteCustomExercise(id)) == s
  {
    Seqs.FilterAll(s.customExercises, OtherThan(id));
  }

  /** Deleting a freshly added exercise whose id was new restores the state. */
  lemma DeleteUndoesAdd(s: State, e: Exercise)
    requires forall x :: x in s.customExercises ==> x.id != e.id
    ensures Reduce(Reduce(s, AddCustomExercise(e)), DeleteCustomExercise(e.id)) == s
  {
    Seqs.FilterConcat(s.customExercises, [e], OtherThan(e.id));
    Seqs.FilterAll(s.customExercises, OtherThan(e.id));
    assert Seqs.Filter([e], OtherThan(e.id)) == [];
  }

  /** Orders for two different groups do not interfere. */
  lemma SetExerciseOrderCommutes(s: State, g: string, a: seq<string>, h: string, b: seq<string>)
    requires g != h
    ensures Reduce(Reduce(s, SetExerciseOrder(g, a)), SetExerciseOrder(h, b))
         == Reduce(Reduce(s, SetExerciseOrder(h, b)), SetExerciseOrder(g, a))
  {
  }

  // ----- Saving -----

  /** The document written to storage. */
  datatype Stored = Stored(units: string, customExercises: seq<Exercise>, exerciseOrder: map<string, seq<string>>)

  function StoredOf(s: State): Stored {
    Stored(s.units, s.customExercises, s.exerciseOrder)
  }

  /**
    `saveSettings(newSettings)`'s document: each field from the argument when
    it is neither null nor undefined, otherwise from the current state.
   */
  function SaveDocument(s: State, p: Partial): (d: Stored)
    ensures p.units.Some? ==> d.units == p.units.value
    ensures p.units.None? ==> d.units == s.units
    ensures p.customExercises.Some? ==> d.customExercises == p.customExercises.value
    ensures p.customExercises.None? ==> d.customExercises == s.customExercises
    ensures p.exerciseOrder.Some? ==> d.exerciseOrder == p.exerciseOrder.value
    ensures p.exerciseOrder.None? ==> d.exerciseOrder == s.exerciseOrder
  {
    Stored(p.units.GetOr(s.units), p.customExercises.GetOr(s.customExercises),
           p.exerciseOrder.GetOr(s.exerciseOrder))
  }

  /** Saving the state's own fields writes the state back unchanged. */
  lemma SaveCurrentIsIdentity(s: State)
    ensures SaveDocument(s, Partial(Some(s.units), Some(s.customExercises), Some(s.exerciseOrder))) == StoredOf(s)
    ensures SaveDocument(s, Partial(None, None, None)) == StoredOf(s)
  {
  }

  /** `custom-${stamp}`: the id `addCustomExercise` gives a new exercise, `stamp` standing for `Date.now()`. */
  function CustomId(stamp: nat): (id: string)
    ensures |id| > 7 && id[..7] == "custom-"
  {
    "custom-" + Text.NatToString(stamp)
  }

  /** Different stamps give different ids. */
  lemma CustomIdInjective(a: nat, b: nat)
    requires CustomId(a) == CustomId(b)
    ensures a == b
  {
    assert CustomId(a)[7..] == Text.NatToString(a);
    assert CustomId(b)[7..] == Text.NatToString(b);
    Text.NatToStringRoundTrip(a);
    Text.NatToStringRoundTrip(b);
  }

  /** The exercise `addCustomExercise(exercise)` stores: the given fields with a fresh id. */
  function NewCustomExercise(name: string, muscleGroup: string, stamp: nat): (e: Exercise)
    ensures e.name == name && e.muscleGroup == muscleGroup && e.id == CustomId(stamp)
  {
    Exercise(CustomId(stamp), name, muscleGroup, Standard)
  }

  /** `setUnits`: the action and the saved argument. */
  function SetUnitsCall(units: string): (Action, Partial) {
    (SetUnits(units), Partial(Some(units), None, None))
  }

  /** `addCustomExercise`: the action and the saved argument, built from the same state. */
  function AddCustomExerciseCall(s: State, e: Exercise): (Action, Partial) {
    (AddCustomExercise(e), Partial(None, Some(s.customExercises + [e]), None))
  }

  /** `deleteCustomExercise`. */
  function DeleteCustomExerciseCall(s: State, id: string): (Action, Partial) {
    (DeleteCustomExercise(id),
     Partial(None, Some(Seqs.Filter(s.customExercises, OtherThan(id))), None))
  }

  /** `setExerciseOrder`. */
  function SetExerciseOrderCall(s: State, g: string, ids: seq<string>): (Action, Partial) {
    (SetExerciseOrder(g, ids), Partial(None, None, Some(s.exerciseOrder[g := ids])))
  }

  /**
    When a context operation runs against the current state, the document it
    saves is exactly the stored part of the state its action produces.
   */
  lemma SavedMatchesReducer(s: State, units: string, e: Exercise, id: string, g: string, ids: seq<string>)
    ensures SaveDocument(s, SetUnitsCall(units).1) == StoredOf(Reduce(s, SetUnitsCall(units).0))
    ensures SaveDocument(s, AddCustomExerciseCall(s, e).1) == StoredOf(Reduce(s, AddCustomExerciseCall(s, e).0))
    ensures SaveDocument(s, DeleteCustomExerciseCall(s, id).1) == StoredOf(Reduce(s, DeleteCustomExerciseCall(s, id).0))
    ensures SaveDocument(s, SetExerciseOrderCall(s, g, ids).1) == StoredOf(Reduce(s, SetExerciseOrderCall(s, g, ids).0))
  {
  }
}
