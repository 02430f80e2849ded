/**
  One workout in the history list: its summary line, its relative date and
  the two-tap delete confirmation.
 */
module WorkoutCard {
  import Workouts
  import WorkoutForm
  import Text
  import Wrappers

  /** `workout.exercises.reduce((sum, ex) => sum + ex.sets.length, 0)`. */
  function TotalSets(es: seq<Workouts.LoggedExercise>): (n: nat)
    ensures n == 0 <==> forall i :: 0 <= i < |es| ==> es[i].sets == []
  {
    if |es| == 0 then 0
    else
      assert forall i :: 1 <= i < |es| ==> es[1..][i - 1] == es[i];
      |es[0].sets| + TotalSets(es[1..])
  }

  /**
    `workout.exercises.length`: the number of exercises, so zero only for a
    workout without exercises, and never more than the set total when every
    exercise has a set.
   */
  function ExerciseCount(w: Workouts.Workout): (n: nat)
    ensures n == |w.exercises|
    ensures n == 0 <==> w.exercises == []
    ensures (forall i :: 0 <= i < |w.exercises| ==> w.exercises[i].sets != []) ==> n <= TotalSets(w.exercises)
  {
    if forall i :: 0 <= i < |w.exercises| ==> w.exercises[i].sets != [] then
      TotalSetsAtLeastCount(w.exercises);
      |w.exercises|
    else
      |w.exercises|
  }

  /** The total of a list of exercises is the sum of the totals of its parts. */
  lemma {:induction false} TotalSetsConcat(a: seq<Workouts.LoggedExercise>, b: seq<Workouts.LoggedExercise>)
    ensures TotalSets(a + b) == TotalSets(a) + TotalSets(b)
  {
    if |a| == 0 {
      assert a + b == b;
    } else {
      assert (a + b)[1..] == a[1..] + b;
      TotalSetsConcat(a[1..], b);
    }
  }

  /** One exercise contributes exactly its own sets: with `TotalSetsConcat`, this fixes every total. */
  lemma TotalSetsSingle(e: Workouts.LoggedExercise)
    ensures TotalSets([e]) == |e.sets|
  {
  }

  /** When every exercise has a set, there are at least as many sets as exercises. */
  lemma {:induction false} TotalSetsAtLeastCount(es: seq<Workouts.LoggedExercise>)
    requires forall i :: 0 <= i < |es| ==> es[i].sets != []
    ensures TotalSets(es) >= |es|
  {
    if |es| > 0 {
      assert forall i :: 1 <= i < |es| ==> es[1..][i - 1] == es[i];
      TotalSetsAtLeastCount(es[1..]);
    }
  }

  /** A workout logged by the wizard shows one exercise and as many sets as rows that counted. */
  lemma SubmittedSummary(parseInt: string -> Wrappers.Option<int>, parseFloat: string -> Wrappers.Option<real>,
                         f: WorkoutForm.Form, today: int)
    requires WorkoutForm.Consistent(f) && f.step == WorkoutForm.Input
    requires WorkoutForm.Submit(parseInt, parseFloat, f, today).Some?
    ensures |WorkoutForm.Submit(parseInt, parseFloat, f, today).value.exercises| == 1
    ensures TotalSets(WorkoutForm.Submit(parseInt, parseFloat, f, today).value.exercises)
            == |WorkoutForm.ValidSets(parseInt, parseFloat, f.sets)| >= 1
  {
    var es := WorkoutForm.Submit(parseInt, parseFloat, f, today).value.exercises;
    WorkoutForm.ValidIffSetsToSave(parseInt, parseFloat, f.sets);
    assert es[1..] == [];
  }

  /** The noun after a count (`exercise{n !== 1 ? 's' : ''}`): `s` is added unless the count is exactly one. */
  function Plural(n: int, word: string): (r: string)
    ensures n == 1 ==> r == word
    ensures n != 1 ==> r == word + "s"
  {
    word + (if n != 1 then "s" else "")
  }

  /**
    The text `${c} exercise{s} · ${t} set{s}` for the counts `c` and `t`:
    it opens with `c` and its noun, and it ends in `s` exactly when `t` is
    not one.
   */
  function Summary(c: int, t: int): (r: string)
    ensures Text.BeforeFirst(r, ' ') == Text.IntToString(c)
    ensures Text.IntToString(c) + " " + Plural(c, "exercise") + " · " <= r
    ensures r[|r| - 1] == 's' <==> t != 1
  {
    var n, noun, sets := Text.IntToString(c), Plural(c, "exercise"), Plural(t, "set");
    var rest := noun + " · " + (Text.IntToString(t) + " " + sets);
    Text.IntToStringNoSpace(c);
    Text.FirstWordAndLast(n, rest);
    PluralLast(t, "set");
    assert rest[|rest| - 1] == sets[|sets| - 1];
    assert n + " " + noun + " · " <= n + " " + rest;
    n + " " + rest
  }

  /** The line under the date: the summary text for this workout's exercise count and set total. */
  function SummaryLine(w: Workouts.Workout): (r: string)
    ensures Text.BeforeFirst(r, ' ') == Text.IntToString(ExerciseCount(w))
    ensures Text.IntToString(ExerciseCount(w)) + " " + Plural(ExerciseCount(w), "exercise") + " · " <= r
    ensures r[|r| - 1] == 's' <==> TotalSets(w.exercises) != 1
  {
    Summary(ExerciseCount(w), TotalSets(w.exercises))
  }

  /** A word not ending in `s` ends in `s` once pluralised exactly when the count is not one. */
  lemma PluralLast(n: int, word: string)
    requires |word| > 0 && word[|word| - 1] != 's'
    ensures Plural(n, word)[|Plural(n, word)| - 1] == 's' <==> n != 1
  {
  }

  /** The summary line tells both counts back: equal lines mean equal exercise counts and equal set totals. */
  lemma SummaryLineInjective(w1: Workouts.Workout, w2: Workouts.Workout)
    requires SummaryLine(w1) == SummaryLine(w2)
    ensures ExerciseCount(w1) == ExerciseCount(w2)
    ensures TotalSets(w1.exercises) == TotalSets(w2.exercises)
  {
    SummaryInjective(ExerciseCount(w1), TotalSets(w1.exercises), ExerciseCount(w2), TotalSets(w2.exercises));
  }

  /** The summary text is the exercise part followed by the set part. */
  lemma SummaryParts(c: int, t: int)
    ensures Summary(c, t) == (Text.IntToString(c) + " " + Plural(c, "exercise") + " · ") + (Text.IntToString(t) + " " + Plural(t, "set"))
  {
    var n, noun, tail := Text.IntToString(c), Plural(c, "exercise"), Text.IntToString(t) + " " + Plural(t, "set");
    Text.ConcatAssoc3(n, " ", noun + " · ", tail);
  }

  /** The summary text determines both of its counts. */
  lemma SummaryInjective(c1: int, t1: int, c2: int, t2: int)
    requires Summary(c1, t1) == Summary(c2, t2)
    ensures c1 == c2 && t1 == t2
  {
    Text.IntToStringInjective(c1, c2);
    var head := Text.IntToString(c1) + " " + Plural(c1, "exercise") + " · ";
    var tail1, tail2 := Text.IntToString(t1) + " " + Plural(t1, "set"), Text.IntToString(t2) + " " + Plural(t2, "set");
    SummaryParts(c1, t1);
    SummaryParts(c2, t2);
    assert tail1 == (head + tail1)[|head|..];
    assert tail2 == (head + tail2)[|head|..];
    Text.IntToStringNoSpace(t1);
    Text.IntToStringNoSpace(t2);
    Text.FirstWordAndLast(Text.IntToString(t1), Plural(t1, "set"));
    Text.FirstWordAndLast(Text.IntToString(t2), Plural(t2, "set"));
    Text.IntToStringInjective(t1, t2);
  }

  /** The plural mark appears exactly when the count is not one. */
  lemma PluralIffNotOne(n: int, word: string)
    ensures |Plural(n, word)| == |word| + 1 <==> n != 1
    ensures Plural(n, word)[..|word|] == word
  {
  }

  /**
    `formatDate`: `Today`, `Yesterday`, `${d} days ago` for every other day
    count below seven, negative ones included, and the locale's calendar
    date (a parameter here) from seven days on.
   */
  function FormatDate(diffDays: int, calendar: string): (r: string)
    ensures diffDays == 0 ==> r == "Today"
    ensures diffDays == 1 ==> r == "Yesterday"
    ensures diffDays != 0 && diffDays != 1 && diffDays < 7 ==> r == Text.IntToString(diffDays) + " days ago"
    ensures diffDays >= 7 ==> r == calendar
  {
    if diffDays == 0 then "Today"
    else if diffDays == 1 then "Yesterday"
    else if diffDays < 7 then
      var r := Text.IntToString(diffDays) + " days ago";
      assert r[|r| - 1] == 'o';
      r
    else calendar
  }

  /** Below seven days the label is relative and tells the day count back; from seven on it is the calendar date. */
  lemma FormatDateRelative(a: int, b: int, calendar: string)
    requires a < 7 && b < 7 && FormatDate(a, calendar) == FormatDate(b, calendar)
    ensures a == b
  {
    if a != 0 && a != 1 && b != 0 && b != 1 {
      var sa, sb := Text.IntToString(a), Text.IntToString(b);
      assert (sa + " days ago")[..|sa|] == sa;
      assert (sb + " days ago")[..|sb|] == sb;
      Text.IntToStringInjective(a, b);
    }
  }

  // ----- Two-tap delete -----

  /** A tap on the delete button, or the three-second timer firing. */
  datatype Event = Tap | Timeout

  /** The confirmation state after an event, and the id handed to `onDelete` if any. */
  datatype Outcome = Outcome(armed: bool, deleted: Wrappers.Option<string>)

  /** `handleDelete` and the timer it starts. */
  function Handle(armed: bool, ev: Event, id: string): (o: Outcome)
    ensures ev == Tap ==> o.armed
    ensures ev == Timeout ==> !o.armed && o.deleted.None?
    ensures o.deleted.Some? <==> armed && ev == Tap
    ensures o.deleted.Some? ==> o.deleted.value == id
  {
    match ev
    case Tap => if armed then Outcome(true, Wrappers.Some(id)) else Outcome(true, Wrappers.None)
    case Timeout => Outcome(false, Wrappers.None)
  }

  /** Whether the confirmation is armed after the events `evs`, starting disarmed. */
  function ArmedAfter(evs: seq<Event>): bool {
    if |evs| == 0 then false
    else Handle(ArmedAfter(evs[..|evs| - 1]), evs[|evs| - 1], "").armed
  }

  /** Some tap in `evs` has no timeout after it. */
  predicate TapSinceTimeout(evs: seq<Event>) {
    exists i :: 0 <= i < |evs| && evs[i] == Tap && forall j :: i < j < |evs| ==> evs[j] == Tap
  }

  /**
    The confirmation is armed exactly when some tap has not yet been
    followed by a timeout; so a tap deletes exactly then.
   */
  lemma {:induction false} ArmedIffTapSinceTimeout(evs: seq<Event>)
    ensures ArmedAfter(evs) <==> TapSinceTimeout(evs)
  {
    if |evs| > 0 {
      var p := evs[..|evs| - 1];
      ArmedIffTapSinceTimeout(p);
      if evs[|evs| - 1] == Tap {
        assert TapSinceTimeout(evs) by {
          assert evs[|evs| - 1] == Tap;
        }
      } else {
        forall i | 0 <= i < |evs| && evs[i] == Tap
          ensures exists j :: i < j < |evs| && evs[j] != Tap
        {
          assert evs[|evs| - 1] != Tap;
        }
      }
    }
  }

  /** The first tap only arms; a second tap before the timer deletes this workout; a timer in between prevents it. */
  lemma DeleteNeedsTwoTaps(id: string)
    ensures Handle(false, Tap, id).deleted.None?
    ensures Handle(Handle(false, Tap, id).armed, Tap, id).deleted == Wrappers.Some(id)
    ensures Handle(Handle(Handle(false, Tap, id).armed, Timeout, id).armed, Tap, id).deleted.None?
  {
  }
}
