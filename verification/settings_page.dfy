/**
  The settings page: the display-name editor, the add-exercise form and the
  guards on their buttons. The name sent to the auth context and the
  exercise sent to the settings context are results; whether the add went
  through is a parameter.
 */
module SettingsPage {
  import opened Wrappers
  import opened Exercises
  import Text
  import AuthContext
  import Settings
  import Catalog

  /** `!s.trim()`: the string is all white space (the two agree by `Text.TrimBlank`). */
  predicate Blank(s: string) {
    Text.AllWhiteSpace(s)
  }

  /** The add form's fields; also the object handed to `addCustomExercise`. */
  datatype AddForm = AddForm(name: string, muscleGroup: string)

  /** `{ name: '', muscleGroup: 'Chest' }`. */
  const EmptyForm := AddForm("", "Chest")

  /** The options of the muscle-group select. */
  const Choices: seq<string> := MuscleGroups

  /** The form's default group is the first option. */
  lemma DefaultIsFirstChoice()
    ensures |Choices| == 6 && Choices[0] == EmptyForm.muscleGroup
  {
    MuscleGroupsFacts();
  }

  datatype Page = Page(displayName: string, savingName: bool, form: AddForm, showAddModal: bool, saving: bool)

  /** The page's initial state for a user whose display name is `userName`. */
  function InitialPage(userName: Option<string>): (p: Page)
    ensures p.form == EmptyForm && !p.showAddModal && !p.saving && !p.savingName
    ensures userName.Some? ==> p.displayName == userName.value
    ensures userName.None? ==> p.displayName == ""
  {
    Page(userName.GetOr(""), false, EmptyForm, false, false)
  }

  // ----- Display name -----

  /** The argument the name editor means to pass on: none for a blank name, else the trimmed one. */
  function NameToSave(displayName: string): (r: Option<string>)
    ensures r.None? <==> Text.AllWhiteSpace(displayName)
    ensures r.Some? ==> r.value == Text.Trim(displayName) && !Text.IsWhiteSpace(r.value[0])
  {
    Text.TrimBlank(displayName);
    if Blank(displayName) then None else Some(Text.Trim(displayName))
  }

  /** The Save button's `disabled`: blank, unchanged from the current name, or a save in progress. */
  predicate SaveNameDisabled(p: Page, current: Option<string>) {
    Blank(p.displayName) || Text.Trim(p.displayName) == current.GetOr("") || p.savingName
  }

  /** The page after `handleSaveName` settles, and the name the profile update received, if any. */
  datatype NameSave = NameSave(page: Page, sent: Option<string>)

  /**
    `handleSaveName` as written: it calls the `updateDisplayName` it reads
    from the auth context. When `provided`, the context's members, lacks it,
    the call throws, the catch swallows the error and nothing is sent.
   */
  function SaveNameAsWritten(p: Page, provided: set<string>): (r: NameSave)
    ensures Blank(p.displayName) ==> r == NameSave(p, None)
    ensures !Blank(p.displayName) ==> !r.page.savingName && r.page.displayName == p.displayName
    ensures !Blank(p.displayName) ==> (r.sent.Some? <==> "updateDisplayName" in provided)
    ensures r.sent.Some? ==> Some(r.sent.value) == NameToSave(p.displayName)
  {
    if Blank(p.displayName) then NameSave(p, None)
    else if "updateDisplayName" in provided then NameSave(p.(savingName := false), Some(Text.Trim(p.displayName)))
    else NameSave(p.(savingName := false), None)
  }

  /** The auth context as written offers no `updateDisplayName`, so no name ever leaves the page. */
  lemma SaveNameNeverSends(p: Page)
    ensures SaveNameAsWritten(p, AuthContext.ContextMembers).sent.None?
  {
    ContextLacksNameUpdate();
  }

  /** The members of the auth context do not include the name update. */
  lemma ContextLacksNameUpdate()
    ensures "updateDisplayName" !in AuthContext.ContextMembers
  {
  }

  /** Any name without white space at its ends enables the button on a page with no name yet, yet nothing is saved. */
  lemma EnabledButNotSent(n: string)
    requires n != "" && !Text.IsWhiteSpace(n[0]) && !Text.IsWhiteSpace(n[|n| - 1])
    ensures NameToSave(n) == Some(n)
    ensures !SaveNameDisabled(InitialPage(None).(displayName := n), None)
    ensures SaveNameAsWritten(InitialPage(None).(displayName := n), AuthContext.ContextMembers).sent.None?
  {
    Text.TrimKeepsTrimmed(n);
    ContextLacksNameUpdate();
  }

  /** The witness: `Sam`, with no current name, enables the button, yet nothing is saved. */
  lemma SaveNameCounterexample()
    ensures NameToSave("Sam") == Some("Sam")
    ensures !SaveNameDisabled(InitialPage(None).(displayName := "Sam"), None)
    ensures SaveNameAsWritten(InitialPage(None).(displayName := "Sam"), AuthContext.ContextMembers).sent.None?
  {
    EnabledButNotSent("Sam");
  }

  /** The context with the member the page expects. */
  const FixedContextMembers: set<string> := AuthContext.ContextMembers + {"updateDisplayName"}

  /** `handleSaveName` with the name update in place: a non-blank name is sent trimmed. */
  function SaveName(p: Page): (r: NameSave)
    ensures r.sent == NameToSave(p.displayName)
    ensures r.page.displayName == p.displayName && r.page.form == p.form
    ensures !Blank(p.displayName) ==> !r.page.savingName
  {
    SaveNameAsWritten(p, FixedContextMembers)
  }

  /** An enabled Save button sends the trimmed name, and afterwards it is disabled again. */
  lemma SaveNameEnabledSends(p: Page, current: Option<string>)
    requires !SaveNameDisabled(p, current)
    ensures SaveName(p).sent == Some(Text.Trim(p.displayName))
    ensures SaveName(p).sent != current
    ensures SaveNameDisabled(SaveName(p).page, SaveName(p).sent)
  {
  }

  // ----- Custom exercises -----

  /** The Add Exercise button's `disabled`. */
  predicate AddDisabled(p: Page) {
    Blank(p.form.name) || p.saving
  }

  /** The page after `handleAddExercise` settles, and the object `addCustomExercise` received, if any. */
  datatype AddOutcome = AddOutcome(page: Page, sent: Option<AddForm>)

  /**
    `handleAddExercise`: nothing for a blank name; otherwise the trimmed name
    and the selected group are sent, and the form resets and closes only if
    the add went through.
   */
  function HandleAdd(p: Page, succeeded: bool): (r: AddOutcome)
    ensures Blank(p.form.name) ==> r == AddOutcome(p, None)
    ensures !Blank(p.form.name) ==>
              r.sent == Some(AddForm(Text.Trim(p.form.name), p.form.muscleGroup)) && !r.page.saving
    ensures !Blank(p.form.name) && succeeded ==> r.page.form == EmptyForm && !r.page.showAddModal
    ensures !Blank(p.form.name) && !succeeded ==> r.page.form == p.form && r.page.showAddModal == p.showAddModal
    ensures r.page.displayName == p.displayName
  {
    if Blank(p.form.name) then AddOutcome(p, None)
    else
      var sent := AddForm(Text.Trim(p.form.name), p.form.muscleGroup);
      if succeeded then AddOutcome(p.(form := EmptyForm, showAddModal := false, saving := false), Some(sent))
      else AddOutcome(p.(saving := false), Some(sent))
  }

  /** The reset form's name is blank. */
  lemma EmptyFormBlank()
    ensures Blank(EmptyForm.name)
  {
  }

  /**
    An enabled Add button sends a non-blank name; after a successful add the
    form is blank again, so the button is disabled until a new name is typed.
   */
  lemma AddEnabledSends(p: Page, succeeded: bool)
    requires !AddDisabled(p)
    ensures HandleAdd(p, succeeded).sent.Some?
    ensures !Blank(HandleAdd(p, succeeded).sent.value.name)
    ensures succeeded ==> AddDisabled(HandleAdd(p, true).page)
  {
    var t := Text.Trim(p.form.name);
    assert HandleAdd(p, succeeded).sent == Some(AddForm(t, p.form.muscleGroup));
    Text.TrimBlank(p.form.name);
    assert !Text.IsWhiteSpace(t[0]);
    assert !Blank(t);
    EmptyFormBlank();
    assert HandleAdd(p, true).page.form == EmptyForm;
  }

  /** An exercise appended to the custom list is in its group's bucket. */
  lemma AppendedIsFiled(custom: seq<Exercise>, order: map<string, seq<string>>, e: Exercise)
    requires e.muscleGroup in MuscleGroups
    ensures e.muscleGroup in Catalog.ByMuscleGroup(custom + [e], order).buckets
    ensures e in Catalog.ByMuscleGroup(custom + [e], order).buckets[e.muscleGroup]
  {
    var c := custom + [e];
    var cat := Catalog.AllExercises(c);
    assert cat[|BuiltIns|..][|custom|] == e;
    Catalog.EveryExerciseFiled(c, order, e);
  }

  /** A custom exercise of a canonical group, once appended by the reducer, is in that group's bucket. */
  lemma StoredIsFiled(s: Settings.State, e: Exercise)
    requires e.muscleGroup in MuscleGroups
    ensures var t := Settings.Reduce(s, Settings.AddCustomExercise(e));
            && e.muscleGroup in Catalog.ByMuscleGroup(t.customExercises, t.exerciseOrder).buckets
            && e in Catalog.ByMuscleGroup(t.customExercises, t.exerciseOrder).buckets[e.muscleGroup]
  {
    var t := Settings.Reduce(s, Settings.AddCustomExercise(e));
    assert t.customExercises == s.customExercises + [e];
    AppendedIsFiled(s.customExercises, t.exerciseOrder, e);
  }

  /**
    The exercise the page adds, once the settings context has stored it with
    a fresh id, is filed in the catalog under the group picked in the form.
   */
  lemma AddedExerciseIsFiled(s: Settings.State, p: Page, stamp: nat)
    requires !Blank(p.form.name) && p.form.muscleGroup in Choices
    ensures var d := HandleAdd(p, true).sent.value;
            var e := Settings.NewCustomExercise(d.name, d.muscleGroup, stamp);
            var t := Settings.Reduce(s, Settings.AddCustomExercise(e));
            && p.form.muscleGroup in Catalog.ByMuscleGroup(t.customExercises, t.exerciseOrder).buckets
            && e in Catalog.ByMuscleGroup(t.customExercises, t.exerciseOrder).buckets[p.form.muscleGroup]
  {
    var d := HandleAdd(p, true).sent.value;
    var e := Settings.NewCustomExercise(d.name, d.muscleGroup, stamp);
    StoredIsFiled(s, e);
  }
}
