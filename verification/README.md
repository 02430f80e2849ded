# Gym tracker: a verified model of the exercise catalog and its pages

This project models the core of a small workout-tracking web app in Dafny and
proves what that core promises.

**The exercise catalog resolver** is the centre of the model:

- The catalog is the 46 built-in exercises followed by the user's custom ones.
- The catalog is bucketed by muscle group. The six canonical groups come first. Ad-hoc groups follow in order of first appearance, and duplicate ids in them are dropped.
- Buckets that have a user order list are re-sorted by rank. Ids the list does not name keep their relative order at the end.
- A case-insensitive search filters the same catalog.

The rest of the core is modelled as pure functions over immutable state:

- the settings reducer and the document that `saveSettings` writes;
- the newest-first workout sort and the last-trained-per-group reduction;
- the four-step workout wizard with its submit rule and day labels;
- the exercise selector's guard;
- the history card's counts, date label and two-tap delete;
- the history page's statistics;
- the settings page's validators;
- the auth error table and the wrappers around the sign-in SDK;
- the login form's modes;
- the landing page's greeting and view.

Modules follow the source files:

- `Exercises`: the built-in data.
- `Catalog`: the exercise service.
- `Settings`: the settings context.
- `Workouts`: the workout service.
- `WorkoutForm`, `ExerciseSelector`, `WorkoutCard`, `History`, `SettingsPage`, `AuthContext`, `LoginForm`, `LandingPage`: the components and pages.
- Shared helpers: `Wrappers` (an `Option` for `null`/`undefined`), `Text` (ASCII lower-casing, `includes`, `trim`, `split(' ')[0]`, number rendering), `Seqs` (order-preserving filter and count) and `StableSort` (the stable sort by integer key that `Array.prototype.sort` performs).

How the JavaScript runtime is represented:

- A date is an integer day number, and an elapsed time is a whole number of days.
- `parseInt`/`parseFloat` are parameters that return `None` for `NaN`.
- Every Firebase call is a parameter: its value, or a throw carrying an optional error code.
- The rank `Infinity` is the length of the order list. `Catalog.ComparatorAgreesWithRank` shows this gives the source comparator's sign, including the `Infinity - Infinity = NaN` tie.

## Model

| member | source | states |
|---|---|---|
| Exercises.MuscleGroupsFacts | src/data/defaultExercises.js:61-68 | The canonical groups are exactly Chest, Back, Legs, Shoulders, Arms, Core, in that order, with no repeats. |
| Exercises.BuiltInIdsDistinct | src/data/defaultExercises.js:1-59 | The built-in list has 46 entries and their ids are pairwise distinct. |
| Exercises.BlocksInGroups | src/data/defaultExercises.js:1-59 | Each of the six blocks of the built-in list carries its own group's label throughout. |
| Exercises.BuiltInsInCanonicalOrder | src/data/defaultExercises.js:1-59 | Every built-in carries a canonical label, and along the list the labels never go back in canonical order. So each group is one contiguous block, and the blocks come in canonical order. |
| Exercises.BuiltInKinds | src/data/defaultExercises.js:51-55 | Only `plank` is timed and only `mountain-climbers` is reps-per-side. Every other built-in is a standard exercise. |
| Catalog.AllExercises | src/services/exerciseService.js:3-5 | The catalog is the built-ins followed by the customs, each in their given order. Its length is the sum of the two. |
| Catalog.InGroup | src/services/exerciseService.js:12 | Filtering by group keeps exactly the entries of that group, each as often as it occurs, in catalog order. |
| Catalog.InGroupConcat | src/services/exerciseService.js:12 | Filtering the catalog is filtering the built-ins, then the customs. |
| Catalog.KeepFirstByIdSpec | src/services/exerciseService.js:21-23 | The ad-hoc dedup leaves distinct ids and keeps every id that occurs. An entry survives exactly when it is the first entry of its id, and the survivors keep their input order. |
| Catalog.KeepFirstByIdDistinct | src/services/exerciseService.js:21-23 | A list whose ids are already distinct passes the dedup unchanged. |
| Catalog.AdHocLabelsSpec | src/services/exerciseService.js:16-20 | The ad-hoc keys are exactly the non-canonical groups that occur in the catalog. Each appears once, in order of first appearance. |
| Catalog.BucketedFacts | src/services/exerciseService.js:9-25 | Before ordering, the keys are the six canonical groups followed by the ad-hoc labels. Every key has one bucket. A canonical bucket is the filtered catalog, and an ad-hoc bucket is the filtered catalog with later duplicate ids dropped. |
| Catalog.OrderMap | src/services/exerciseService.js:31 | The id-to-index map holds exactly the listed ids. Each maps to its last position in the list, as `new Map` keeps the last entry for a repeated key. |
| Catalog.Rank | src/services/exerciseService.js:31-34 | A listed id ranks at its last position. An unlisted id ranks above every listed one. |
| Catalog.ComparatorAgreesWithRank | src/services/exerciseService.js:32-36 | The source comparator on JavaScript numbers has the sign of the rank difference. `Infinity - Infinity` is `NaN`, which the sort treats as a tie. |
| Catalog.SortByRank | src/services/exerciseService.js:32-36 | The re-sorted bucket is a permutation of the bucket, is non-decreasing in rank and never has a pair the comparator would swap. |
| Catalog.OrderedBucketUnique | src/services/exerciseService.js:32-36 | A rank-ordered arrangement that keeps each rank class in bucket order is the re-sorted bucket, so the stable sort's result is unique. |
| Catalog.UnrankedIsTopRank | src/services/exerciseService.js:33-34 | The entries the order list does not name form the highest rank class, in their original relative order. |
| Catalog.ByMuscleGroupKeys | src/services/exerciseService.js:7-41 | The result's keys are the canonical groups, each present even with an empty bucket, then the ad-hoc labels. The map holds exactly those keys. |
| Catalog.BucketContents | src/services/exerciseService.js:28-38 | Ordering never adds or drops an entry: every bucket is a permutation of its unordered contents. |
| Catalog.CanonicalBucketUnordered | src/services/exerciseService.js:11-30 | Without a non-empty order list, a canonical bucket is exactly the catalog filtered by that group, in catalog order. |
| Catalog.AdHocBucketUnordered | src/services/exerciseService.js:16-30 | Without a non-empty order list, an ad-hoc bucket is the filtered catalog with later duplicate ids dropped. |
| Catalog.AdHocBucketFacts | src/services/exerciseService.js:16-37 | An ad-hoc bucket, ordered or not, holds only entries of its own label with distinct ids. It holds exactly the first entry of each id. |
| Catalog.OrderedBucketFacts | src/services/exerciseService.js:29-37 | With a non-empty order list, a bucket is a permutation of its prior contents, non-decreasing in rank. Each rank class keeps its prior order, so unnamed entries trail in their original order. |
| Catalog.UnknownIdsIgnored | src/services/exerciseService.js:33-35 | An order list naming none of a bucket's ids leaves the bucket as it was. |
| Catalog.UnknownGroupIgnored | src/services/exerciseService.js:28-29 | An order entry for a label that has no bucket changes nothing. |
| Catalog.EveryExerciseFiled | src/services/exerciseService.js:11-25 | Every catalog entry's group is a key, and that bucket holds an entry with its id. A canonical entry is itself in its bucket. |
| Catalog.BucketsHoldTheirGroup | src/services/exerciseService.js:11-37 | Every entry of a bucket is a catalog entry of that bucket's group, so there are no phantom entries. |
| Catalog.RankOrderExample | src/services/exerciseService.js:29-37 | Ordering `[id1, id2, id3]` by `[id3, id1]` gives `[id3, id1, id2]`. |
| Catalog.ExampleRanks | src/services/exerciseService.js:31-34 | With `[id3, id1]`, `id3` ranks 0, `id1` ranks 1 and the unlisted `id2` ranks 2. |
| Catalog.RepeatedIdExample | src/services/exerciseService.js:31 | With `[id2, id1, id2]`, `id1` sorts before `id2`, because the repeated id ranks at its last position. |
| Catalog.Search | src/services/exerciseService.js:43-51 | The search result is the subsequence of the catalog whose lower-cased name or group contains the lower-cased query, with every matching entry kept as often as it occurs. |
| Catalog.SearchBuiltInsFirst | src/services/exerciseService.js:44-50 | The built-in hits come first, then the custom hits, each in catalog order. |
| Catalog.SearchEmptyQuery | src/services/exerciseService.js:43-51 | An empty query returns the whole catalog. |
| Catalog.SearchIgnoresQueryCase | src/services/exerciseService.js:45 | Lower-casing the query first does not change the result. |
| Catalog.SearchExample | src/services/exerciseService.js:45-49 | `CURL` finds `Cable Curl`. |
| Catalog.SearchMissExample | src/services/exerciseService.js:47-50 | `CURL` does not find `Row` in `Back`. |
| StableSort.Sort | src/services/exerciseService.js:32 | The built-in sort returns a permutation of its input, ordered by key. |
| StableSort.SortStable | src/services/exerciseService.js:32 | Within every key class the sorted order is the input order. |
| StableSort.SortIsTheStableSort | src/services/exerciseService.js:32 | Any key-ordered arrangement that keeps every key class in input order equals the sort. |
| Text.Lower | src/services/exerciseService.js:45 | Lower-casing keeps the length and maps every character by ASCII case folding. |
| Text.LowerIdempotent | src/services/exerciseService.js:45 | Lower-casing twice is lower-casing once. |
| Text.Contains | src/services/exerciseService.js:48-49 | `includes` holds exactly when the pattern occurs at some index. |
| Text.ContainsEmpty | src/services/exerciseService.js:48-49 | Every string includes the empty string. |
| Text.Trim | src/pages/Settings.jsx:19 | The trimmed string is a slice of the input with only white space around it, and it has no white space at either end. |
| Text.TrimBlank | src/pages/Settings.jsx:19 | A string trims to nothing exactly when it is all white space. |
| Text.TrimIdempotent | src/pages/Settings.jsx:40-45 | Trimming twice is trimming once. |
| Text.TrimKeepsTrimmed | src/pages/Settings.jsx:94 | A string with no white space at its ends trims to itself. |
| Text.BeforeFirst | src/pages/LandingPage.jsx:131 | `split(' ')[0]` is a space-free prefix of the input, ended by a space or by the end of the input. |
| Text.NatToStringRoundTrip | src/components/workout/WorkoutForm.jsx:71 | Reading back the decimal digits of an interpolated count gives the count. |
| Text.IntToStringInjective | src/components/history/WorkoutCard.jsx:16 | Different integers interpolate to different strings. |
| Seqs.Filter | src/pages/History.jsx:37 | `filter` keeps exactly the entries the predicate keeps, in their original order, as many as satisfy the predicate. |
| Seqs.FilterUnique | src/pages/History.jsx:37 | Any in-order selection of kept entries that is as long as the number of kept entries is the filter: the contract of `Seqs.Filter` fixes its result. |
| Seqs.FilterPartition | src/pages/History.jsx:46-49 | The entries a filter keeps and the entries the opposite filter keeps add up to the whole list. |
| Settings.Reduce | src/context/SettingsContext.jsx:15-46 | Each action changes only its own field: units are replaced, a custom exercise is appended, deleting removes every entry with that id and keeps the rest in order, and one group's order entry is replaced. A settings payload overlays the state and clears loading. Reset gives the initial state. An unknown action leaves the state unchanged. |
| Settings.SetSettingsOverlay | src/context/SettingsContext.jsx:17-18 | Each present payload field replaces the state's field. Missing ones keep the state's value, and loading ends false. |
| Settings.SetSettingsIdempotent | src/context/SettingsContext.jsx:17-18 | Applying the same stored document twice is the same as applying it once. |
| Settings.ResetFromAnyState | src/context/SettingsContext.jsx:8-42 | Reset gives the same state from any state: pounds, no customs, an empty order map, loading. |
| Settings.SetUnitsLastWins | src/context/SettingsContext.jsx:19-20 | The later of two unit changes wins. |
| Settings.DeleteAbsentId | src/context/SettingsContext.jsx:26-30 | Deleting an id no custom exercise has is a no-op. |
| Settings.DeleteUndoesAdd | src/context/SettingsContext.jsx:21-30 | Deleting a just-added exercise with a new id restores the state. |
| Settings.SetExerciseOrderCommutes | src/context/SettingsContext.jsx:31-38 | Order entries for two different groups do not interfere. |
| Settings.SaveDocument | src/context/SettingsContext.jsx:89-93 | Each saved field comes from the argument when present, otherwise from the current state. |
| Settings.SaveCurrentIsIdentity | src/context/SettingsContext.jsx:89-93 | Saving the state's own fields, or no fields, writes the state back unchanged. |
| Settings.CustomId | src/context/SettingsContext.jsx:111 | A new custom id is `custom-` followed by the timestamp. |
| Settings.CustomIdInjective | src/context/SettingsContext.jsx:111 | Different timestamps give different ids. |
| Settings.NewCustomExercise | src/context/SettingsContext.jsx:109-112 | The stored exercise keeps the given name and group and gets the fresh id. |
| Settings.SavedMatchesReducer | src/context/SettingsContext.jsx:103-131 | For each of the four setters, the saved document equals the stored fields of the state the dispatched action produces. |
| Workouts.NewestFirst | src/services/workoutService.js:45 | The workouts come back as a permutation of the input, sorted newest date first. |
| Workouts.NewestFirstStable | src/services/workoutService.js:45 | Workouts of the same day keep their stored order. |
| Workouts.Record | src/services/workoutService.js:62-64 | A group's entry becomes the later of its old date and the new one. Other groups are untouched. |
| Workouts.AbsorbExercisesSpec | src/services/workoutService.js:59-66 | After one workout's exercises, a group has a key exactly when it had one before or the workout mentions it. Its value is the later of the old value and this date. |
| Workouts.LastTrainedSpec | src/services/workoutService.js:54-70 | A group has a key exactly when some workout trains it. Its value is the date of such a workout, and it is not earlier than any of them. |
| Workouts.IsLastTrainedUnique | src/services/workoutService.js:58-67 | Two lists with the same workouts have only one last-trained map between them. |
| Workouts.LastTrainedOrderIndependent | src/services/workoutService.js:58-67 | The result does not depend on the order of the workouts. |
| Workouts.LastTrainedOfNewestFirst | src/services/workoutService.js:54-58 | Reducing over the sorted list gives the same map as over the stored list. |
| Workouts.UngroupedIgnored | src/services/workoutService.js:60-61 | An exercise with an empty or missing group never creates a key. |
| WorkoutForm.SelectBodyPart | src/components/workout/WorkoutForm.jsx:74-77 | From the body-part step the wizard moves to the exercise step and records the body part. |
| WorkoutForm.SelectExercise | src/components/workout/WorkoutForm.jsx:79-82 | From the exercise step the wizard moves to the sets step and records the exercise. |
| WorkoutForm.SelectSets | src/components/workout/WorkoutForm.jsx:84-88 | From the sets step the wizard moves to input and records the count, with exactly that many blank rows. |
| WorkoutForm.BlankSets | src/components/workout/WorkoutForm.jsx:86 | Choosing n sets yields exactly n rows with empty reps and weight. |
| WorkoutForm.UpdateSet | src/components/workout/WorkoutForm.jsx:90-94 | Only the named field of the row at the index changes. The length, the other rows and the step are unchanged, and an out-of-range index changes nothing. |
| WorkoutForm.BackMovesOneStep | src/components/workout/WorkoutForm.jsx:96-108 | Back is a no-op on the first step. Elsewhere it moves exactly one step back and clears only that step's choice. |
| WorkoutForm.BackUndoesSelect | src/components/workout/WorkoutForm.jsx:74-108 | Going forward one step and then back returns the same form, on every step. |
| WorkoutForm.ParsedRows | src/components/workout/WorkoutForm.jsx:111-115 | Each row is parsed to `parseInt(reps) \|\| 0` and `parseFloat(weight) \|\| 0`, in row order. |
| WorkoutForm.ValidSets | src/components/workout/WorkoutForm.jsx:111-116 | The sets to save are the parsed rows with positive reps or positive weight, in row order, each counted row kept, repeats included. |
| WorkoutForm.ValidIffSetsToSave | src/components/workout/WorkoutForm.jsx:110-133 | The submit button's `isValid` holds exactly when the submit handler has a set to save. |
| WorkoutForm.Submit | src/components/workout/WorkoutForm.jsx:110-129 | Submit saves exactly when some set counts. The record has today's date and one exercise with the chosen body part, exercise id, exercise name and exactly the counted sets. |
| WorkoutForm.BlankFormSavesNothing | src/components/workout/WorkoutForm.jsx:84-118 | Right after choosing the set count, every row is blank, so nothing can be saved. |
| WorkoutForm.ShortDaysAgo | src/components/workout/WorkoutForm.jsx:69-71 | 0 days gives `Today` and 1 gives `Yesterday`, each for no other count. Any other count gives `<n>d ago`. |
| WorkoutForm.ShortDaysAgoInjective | src/components/workout/WorkoutForm.jsx:69-71 | Different day counts get different labels. |
| WorkoutForm.DaysAgo | src/components/workout/WorkoutForm.jsx:62-72 | A group never trained gets no label. Otherwise the label is that of the days since its last date. |
| WorkoutForm.ExerciseChoicesCanonical | src/components/workout/WorkoutForm.jsx:184 | For a canonical body part, the exercise step lists the catalog filtered to it, in catalog order. |
| ExerciseSelector.FindPicked | src/components/workout/ExerciseSelector.jsx:24 | `find` returns the first picked entry with that id (no earlier entry has it), or nothing when no picked entry has it. |
| ExerciseSelector.HandleSelect | src/components/workout/ExerciseSelector.jsx:23-27 | When `onSelect` is called, it receives the tapped exercise. |
| ExerciseSelector.SelectGuardAgrees | src/components/workout/ExerciseSelector.jsx:23-31 | `onSelect` is called exactly when `isSelected` (the button's `disabled`) is false. |
| ExerciseSelector.NoDoublePick | src/components/workout/ExerciseSelector.jsx:23-27 | Once picked, an exercise is not passed on again. |
| ExerciseSelector.ActiveList | src/components/workout/ExerciseSelector.jsx:45 | With no active group, or an empty one, the list is empty. |
| ExerciseSelector.ActiveListFacts | src/components/workout/ExerciseSelector.jsx:45 | An active canonical group lists its filtered catalog. An unknown group lists nothing. |
| ExerciseSelector.TapBack | src/components/workout/ExerciseSelector.jsx:80 | The back transition: `setActiveGroup(null)` shows the group grid, whatever was open. |
| ExerciseSelector.GroupThenBack | src/components/workout/ExerciseSelector.jsx:48-80 | The two picker transitions together: a canonical group's tile leaves the grid, and back returns to it. |
| ExerciseSelector.LongDaysAgo | src/components/workout/ExerciseSelector.jsx:40-42 | 0 days gives `Today` and 1 gives `1 day ago`, each for no other count. Any other count gives `<n> days ago`. |
| ExerciseSelector.LongDaysAgoInjective | src/components/workout/ExerciseSelector.jsx:40-42 | Different day counts get different labels. |
| ExerciseSelector.DaysAgo | src/components/workout/ExerciseSelector.jsx:33-43 | A group never trained gets no label. Otherwise the label is that of the days since its last date. |
| WorkoutCard.TotalSets | src/components/history/WorkoutCard.jsx:24 | The set total is zero exactly when no exercise has a set. |
| WorkoutCard.TotalSetsSingle | src/components/history/WorkoutCard.jsx:24 | One exercise contributes exactly its number of sets. |
| WorkoutCard.ExerciseCount | src/components/history/WorkoutCard.jsx:25 | The count is the number of exercises. So it is zero only for a workout without exercises, and it never exceeds the set total when every exercise has a set. |
| WorkoutCard.TotalSetsConcat | src/components/history/WorkoutCard.jsx:24 | The total over a list is the sum of the totals of its parts. |
| WorkoutCard.TotalSetsAtLeastCount | src/components/history/WorkoutCard.jsx:24-25 | When every exercise has a set, there are at least as many sets as exercises. |
| WorkoutCard.SubmittedSummary | src/components/history/WorkoutCard.jsx:24-25 | A workout saved by the wizard counts one exercise and as many sets as rows that counted. |
| WorkoutCard.Summary | src/components/history/WorkoutCard.jsx:46 | For counts `c` and `t`, the text up to the first space is `c`, followed by a space, the noun `exercise` (with `s` unless `c` is 1) and ` · `. The text ends in `s` exactly when `t` is not 1. |
| WorkoutCard.SummaryInjective | src/components/history/WorkoutCard.jsx:46 | Equal summary texts have equal exercise counts and equal set totals. |
| WorkoutCard.SummaryLine | src/components/history/WorkoutCard.jsx:25-46 | The card's line opens with its exercise count and that count's noun. It ends in `s` exactly when the set total is not 1. |
| WorkoutCard.SummaryLineInjective | src/components/history/WorkoutCard.jsx:46 | Equal summary lines mean equal exercise counts and equal set totals. |
| Text.BeforeFirstUpTo | src/pages/LandingPage.jsx:131 | `split(sep)[0]` of a string that has no `sep` before its first `sep` is that leading part. |
| WorkoutCard.PluralIffNotOne | src/components/history/WorkoutCard.jsx:46 | The noun gets its `s` exactly when the count is not one. |
| WorkoutCard.FormatDate | src/components/history/WorkoutCard.jsx:9-22 | 0 days gives `Today`, 1 gives `Yesterday`, any other count below 7, negatives included, gives `<n> days ago`, and 7 or more gives the calendar date. |
| WorkoutCard.FormatDateRelative | src/components/history/WorkoutCard.jsx:14-16 | Below seven days, negative counts included, different counts get different labels. |
| WorkoutCard.Handle | src/components/history/WorkoutCard.jsx:27-34 | A tap arms the confirmation, and the timer disarms it. `onDelete` gets this workout's id exactly on a tap while armed. |
| WorkoutCard.ArmedIffTapSinceTimeout | src/components/history/WorkoutCard.jsx:27-34 | After any sequence of taps and timeouts, the card is armed exactly when some tap has no timeout after it. |
| WorkoutCard.DeleteNeedsTwoTaps | src/components/history/WorkoutCard.jsx:27-34 | The first tap only arms. A second tap deletes this workout, unless the timer fired in between. |
| History.Load | src/pages/History.jsx:13-32 | Loading always ends. Signed out, nothing changes. A successful fetch replaces the list, and a failed one sets the load error. |
| History.Delete | src/pages/History.jsx:34-42 | A successful delete removes exactly the entries with that id and keeps the rest in order. A failed delete keeps the list and sets the delete error. |
| History.DeleteAbsent | src/pages/History.jsx:37 | Deleting an id no workout has leaves the page as it was. |
| History.DeleteIdempotent | src/pages/History.jsx:37 | A second delete of the same id changes nothing. |
| History.ThisWeek | src/pages/History.jsx:46-49 | The week count is zero exactly when every workout is seven or more days old. |
| History.ThisWeekPartition | src/pages/History.jsx:45-49 | The week count plus the older workouts is the total, so the week count never exceeds the total. |
| History.FutureWorkoutsCount | src/pages/History.jsx:46-49 | Workouts dated today or later all count toward this week. |
| History.StatsAfterLoad | src/pages/History.jsx:57 | After the first load, the stats row shows exactly when the fetch returned workouts. Signed out, it never shows. |
| SettingsPage.NameToSave | src/pages/Settings.jsx:19-22 | A blank name sends nothing. Any other name is sent trimmed. |
| SettingsPage.SaveNameAsWritten | src/pages/Settings.jsx:18-28 | The handler as written sends a name only when the context provides `updateDisplayName`. When it does, the name sent is the trimmed one. |
| SettingsPage.SaveNameNeverSends | src/pages/Settings.jsx:10-22 | With the auth context's actual members, no name is ever sent. |
| SettingsPage.SaveNameCounterexample | src/pages/Settings.jsx:94 | `Sam` enables the Save button for a user with no name, yet nothing is sent. |
| SettingsPage.EnabledButNotSent | src/pages/Settings.jsx:94 | Any name without white space at its ends enables the button for a user with no name, yet nothing is sent. |
| SettingsPage.SaveName | src/pages/Settings.jsx:18-28 | With the update in place, the handler sends exactly the name the validator accepts, trimmed, and leaves the form alone. |
| SettingsPage.SaveNameEnabledSends | src/pages/Settings.jsx:94 | An enabled Save button sends the trimmed name, which differs from the current name, and afterwards the button is disabled. |
| SettingsPage.InitialPage | src/pages/Settings.jsx:12-16 | The page starts with the user's name, or empty, a closed and reset add form, and nothing saving. |
| SettingsPage.DefaultIsFirstChoice | src/pages/Settings.jsx:197-199 | The group choices are the six canonical groups, and the form's default `Chest` is the first. |
| SettingsPage.HandleAdd | src/pages/Settings.jsx:38-55 | A blank name does nothing. Otherwise the trimmed name and the chosen group are sent. Success resets the form and closes the modal, and failure keeps both. |
| SettingsPage.AddEnabledSends | src/pages/Settings.jsx:214 | An enabled Add button sends a non-blank name. After a success the form is blank, so the button is disabled again. |
| SettingsPage.AddedExerciseIsFiled | src/pages/Settings.jsx:44-47 | The added exercise, once the context stores it with a fresh id, is in the catalog bucket of the group chosen in the form. |
| SettingsPage.StoredIsFiled | src/context/SettingsContext.jsx:21-25 | A canonical-group custom exercise appended by the reducer is in its group's bucket. |
| AuthContext.ErrorMessage | src/context/AuthContext.jsx:16-31 | Each listed code maps to its own message. Any other code, or none, maps to the generic message, so the lookup is total and never empty. |
| AuthContext.TableMessages | src/context/AuthContext.jsx:17-29 | Every listed message is non-empty and differs from the generic one. |
| AuthContext.GenericIffUnknown | src/context/AuthContext.jsx:30 | The generic message comes back exactly for a missing or unlisted code. |
| AuthContext.KnownMessagesDistinct | src/context/AuthContext.jsx:17-29 | Two listed codes with the same message are the same code. |
| AuthContext.SignIn | src/context/AuthContext.jsx:54-70 | A Google or e-mail sign-in returns the user when the SDK answers, and the error message of its code when the SDK throws. |
| AuthContext.Succeed | src/context/AuthContext.jsx:84-100 | Reset and sign-out report success exactly when the SDK answers, and otherwise the error message. |
| AuthContext.SignUp | src/context/AuthContext.jsx:72-82 | The profile is updated only for a created account with a non-empty name. Sign-up succeeds exactly when creation and any needed update do. The first throw becomes the error result. |
| AuthContext.SignUpWithoutName | src/context/AuthContext.jsx:75-77 | Without a name, the profile call's outcome never matters, and sign-up behaves as a sign-in. |
| AuthContext.ErrorIffFailed | src/context/AuthContext.jsx:54-100 | Every wrapper result carries a non-empty error exactly when the SDK threw, and no wrapper throws. |
| LoginForm.Pending | src/components/auth/LoginForm.jsx:17-20 | A submit first clears the error and message and sets loading. |
| LoginForm.Submit | src/components/auth/LoginForm.jsx:16-46 | In forgot mode, success leaves forgot mode with the confirmation, and failure stays with the error. Otherwise the error is set exactly when the result has one. Every path ends with loading off. |
| LoginForm.RequestOf | src/components/auth/LoginForm.jsx:22-40 | Forgot mode calls only the reset. Otherwise sign-up mode calls sign-up with the name, and sign-in mode calls sign-in. |
| LoginForm.Toggle | src/components/auth/LoginForm.jsx:48-53 | Toggling flips sign-up mode, leaves forgot mode and clears the error and message. The typed fields are kept. |
| LoginForm.ToggleTwice | src/components/auth/LoginForm.jsx:48-53 | Toggling twice returns to the same mode with the messages cleared. |
| LoginForm.OpenForgot | src/components/auth/LoginForm.jsx:144-152 | The forgot link enters forgot mode only from sign-in mode. |
| LoginForm.BackToSignIn | src/components/auth/LoginForm.jsx:89 | The back link leaves forgot mode and changes nothing else. |
| LoginForm.RunKeepsForgotInSignIn | src/components/auth/LoginForm.jsx:5-53 | No sequence of actions reaches forgot mode while in sign-up mode, and a run ending in a submit is not loading. |
| LoginForm.FailureShown | src/components/auth/LoginForm.jsx:34-44 | A failed sign-in or sign-up shows its message, which is never empty. |
| LoginForm.SuccessClears | src/components/auth/LoginForm.jsx:34-45 | A successful sign-in or sign-up leaves no error and no message. |
| LoginForm.ResetOutcome | src/components/auth/LoginForm.jsx:22-31 | A reset that went through returns to sign-in with the confirmation. One that failed stays in forgot mode. |
| LandingPage.GreetingName | src/pages/LandingPage.jsx:131 | The greeting is never empty. Unless it is `Athlete`, it is a space-free prefix of the display name. |
| LandingPage.GreetingIsFirstWord | src/pages/LandingPage.jsx:131 | A name whose first space-delimited word is non-empty is greeted with exactly that word. |
| LandingPage.GreetingFallback | src/pages/LandingPage.jsx:131 | A missing name, an empty one, or one starting with a space is greeted as `Athlete`. |
| LandingPage.GreetingExample | src/pages/LandingPage.jsx:131 | `Sam Lee` is greeted as `Sam`. |
| LandingPage.GoogleAttempt | src/pages/LandingPage.jsx:13-19 | The error line is cleared at each attempt and shows a message exactly when the result carries one. |
| LandingPage.GoogleErrorIffThrew | src/pages/LandingPage.jsx:13-19 | The error line shows exactly when the popup threw, with that code's message, whatever was shown before. |
| LandingPage.ViewOf | src/pages/LandingPage.jsx:21-29 | The spinner shows exactly while loading. The signed-out view shows exactly when loaded with no user. The home view greets the user. |
| LandingPage.LoadingHidesUser | src/pages/LandingPage.jsx:21-27 | While loading, who is signed in makes no difference to what shows. |

## Left out

- Firebase and Firestore I/O (`getDoc`, `setDoc`, `addDoc`, `getDocs`, `deleteDoc`, the auth SDK) is not modelled. Each call is a parameter: its value or a throw with an optional code.
- `src/services/firebase.js` is not part of this model.
- Clocks and locales are not modelled:
  - `Date.now()` is a `stamp` parameter.
  - `new Date()` is a day number `today`.
  - `toISOString().split('T')[0]` is that day number.
  - `toLocaleDateString` is the `calendar` parameter of `WorkoutCard.FormatDate`.
- Elapsed time is a whole number of days:
  - The floating-point millisecond-to-day division and `Math.floor` of the day labels are not modelled.
  - History's week count compares the unrounded fraction with 7. `History.ThisWeek` compares whole day differences, so a workout exactly on the boundary day may count differently.
  - Workout dates are whole day numbers. Invalid dates are not modelled. `getWorkouts` turns every stored date into a `Date` (src/services/workoutService.js:39). An empty or malformed stored date becomes an Invalid Date, whose time is `NaN`. Such a date is truthy, so it is kept as a group's last date, and its labels read `NaNd ago` or `NaN days ago`.
- `setTimeout` in the workout card is an explicit `Timeout` event. A timer started by an earlier tap can fire after a later tap; that race is not modelled.
- Async ordering is not modelled:
  - The settings setters build their saved document from the render-time state. Two setters called before a re-render can overwrite each other.
  - `Settings.SavedMatchesReducer` relates one call to one dispatch.
- `Text.Lower` folds ASCII letters only. `toLowerCase` on other scripts is not modelled.
- The `Grouping` key order follows insertion order. JavaScript lists integer-like object keys (an ad-hoc group named `"12"`) first, and this is not modelled.
- Workouts.Record: a group named like an object-prototype member (`toString`, `constructor`, `__proto__`) gets an entry in the model. In the source, `lastWorkouts[group]` is already truthy for such a name, and `workout.date >` a function or object compares with `NaN`, which is false (src/services/workoutService.js:62). So the source never records such a group. Only stored data can carry one, because the wizard writes canonical body parts.
- Catalog.ByMuscleGroup: ad-hoc groups named like object-prototype keys (`constructor`, `toString`, `__proto__`) are filed as ordinary buckets. In the source, `grouped[name]` is already truthy for such a name (src/services/exerciseService.js:18), so line 21 calls `find` on a non-array and throws a `TypeError`. Only stored data can carry such a group, because the form offers the canonical groups only.
- `AuthContext.ErrorMessage`: object-prototype keys such as `toString` are not modelled. In the source they return a function instead of a message; Firebase codes never take those values.
- `Settings.Reduce`: a payload field that is present but `null` is treated as absent. The source's spread would copy the `null`; `saveSettings` writes only non-null values.
- `parseInt`/`parseFloat` are parameters returning `None` for `NaN`. Their parsing rules are not modelled.
- Custom exercises are modelled with the standard kind. In the source they carry no `type` field, and built-ins without a type are treated the same.
- The settings context's load effect (`SET_LOADING`, then `SET_SETTINGS` or `SET_LOADING false`) is not modelled as a routine of its own. Its dispatches are the reducer actions modelled in `Settings.Reduce`.
- `updateProfile`'s effect on the signed-in user object and `onAuthStateChanged` are not modelled. The user is an input of the pages.
- The login form offers the mode toggle in every view in the model. In the source, the forgot-password view shows only the back link.
- JSX markup, styling, routing, `Button.jsx`, `Header.jsx`, `App.jsx`, `WorkoutList.jsx`, `SetInput.jsx`, `LogWorkout.jsx`, `Modal.jsx` and the 3-D body model are not part of this model.
- `AuthContext.TableMessages` does not state that the table has exactly eleven entries. `AuthContext.KnownMessagesDistinct` states that the eleven messages are pairwise different instead.
- `WorkoutForm.Back`: its own contract only states that the form stays consistent. The step-by-step effect is stated by `WorkoutForm.BackMovesOneStep` and `WorkoutForm.BackUndoesSelect`.

## Findings

| source | as written | input that shows it | evidently intended | confidence | as-written member | corrected member |
|---|---|---|---|---|---|---|
| src/pages/Settings.jsx:10-22 | The page reads `updateDisplayName` from the auth context and awaits it. The auth context's value (src/context/AuthContext.jsx:102-110) has no such member. The call throws a `TypeError`, the `catch` logs it, and the name is never saved. | The display name `Sam` for a user with no name: the Save button is enabled, but no update is sent. | The trimmed, non-blank name is passed to a profile update the context provides. | not executed | SettingsPage.SaveNameAsWritten (SettingsPage.SaveNameNeverSends, SettingsPage.SaveNameCounterexample) | SettingsPage.SaveName (SettingsPage.SaveNameEnabledSends) |
