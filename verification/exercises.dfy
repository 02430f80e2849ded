/**
  The exercise record and the fixed built-in catalog: 46 exercises listed
  in six contiguous blocks, one per canonical muscle group, and the
  canonical group list itself.
 */
module Exercises {

  /**
    The optional `type` of an exercise. `Standard` stands for an exercise
    without a `type` field (sets of reps and weight).
   */
  datatype ExerciseType = Standard | Timed | RepsPerSide

  datatype Exercise = Exercise(id: string, name: string, muscleGroup: string, kind: ExerciseType)

  /** The canonical muscle groups, in display order. */
  const MuscleGroups: seq<string> := ["Chest", "Back", "Legs", "Shoulders", "Arms", "Core"]

  /** The Chest block of the built-in list, in listed order. */
  const ChestList: seq<Exercise> := [
    Exercise("bench-press", "Bench Press", "Chest", Standard),
    Exercise("incline-bench-press", "Incline Bench Press", "Chest", Standard),
    Exercise("decline-bench-press", "Decline Bench Press", "Chest", Standard),
    Exercise("dumbbell-flyes", "Dumbbell Flyes", "Chest", Standard),
    Exercise("push-ups", "Push-ups", "Chest", Standard),
    Exercise("cable-crossover", "Cable Crossover", "Chest", Standard)
  ]

  /** The Back block of the built-in list, in listed order. */
  const BackList: seq<Exercise> := [
    Exercise("deadlift", "Deadlift", "Back", Standard),
    Exercise("barbell-rows", "Barbell Rows", "Back", Standard),
    Exercise("pull-ups", "Pull-ups", "Back", Standard),
    Exercise("lat-pulldown", "Lat Pulldown", "Back", Standard),
    Exercise("seated-cable-row", "Seated Cable Row", "Back", Standard),
    Exercise("dumbbell-rows", "Dumbbell Rows", "Back", Standard),
    Exercise("t-bar-row", "T-Bar Row", "Back", Standard)
  ]

  /** The Legs block of the built-in list, in listed order. */
  const LegsList: seq<Exercise> := [
    Exercise("squat", "Squat", "Legs", Standard),
    Exercise("front-squat", "Front Squat", "Legs", Standard),
    Exercise("leg-press", "Leg Press", "Legs", Standard),
    Exercise("lunges", "Lunges", "Legs", Standard),
    Exercise("leg-extension", "Leg Extension", "Legs", Standard),
    Exercise("leg-curl", "Leg Curl", "Legs", Standard),
    Exercise("romanian-deadlift", "Romanian Deadlift", "Legs", Standard),
    Exercise("calf-raises", "Calf Raises", "Legs", Standard),
    Exercise("hip-thrust", "Hip Thrust", "Legs", Standard)
  ]

  /** The Shoulders block of the built-in list, in listed order. */
  const ShouldersList: seq<Exercise> := [
    Exercise("overhead-press", "Overhead Press", "Shoulders", Standard),
    Exercise("dumbbell-shoulder-press", "Dumbbell Shoulder Press", "Shoulders", Standard),
    Exercise("lateral-raises", "Lateral Raises", "Shoulders", Standard),
    Exercise("front-raises", "Front Raises", "Shoulders", Standard),
    Exercise("reverse-flyes", "Reverse Flyes", "Shoulders", Standard),
    Exercise("face-pulls", "Face Pulls", "Shoulders", Standard)
  ]

  /** The Arms block of the built-in list, in listed order. */
  const ArmsList: seq<Exercise> := [
    Exercise("barbell-curl", "Barbell Curl", "Arms", Standard),
    Exercise("dumbbell-curl", "Dumbbell Curl", "Arms", Standard),
    Exercise("hammer-curl", "Hammer Curl", "Arms", Standard),
    Exercise("preacher-curl", "Preacher Curl", "Arms", Standard),
    Exercise("concentration-curl", "Concentration Curl", "Arms", Standard),
    Exercise("tricep-pushdown", "Tricep Pushdown", "Arms", Standard),
    Exercise("tricep-extension", "Tricep Extension", "Arms", Standard),
    Exercise("skull-crushers", "Skull Crushers", "Arms", Standard),
    Exercise("close-grip-bench", "Close Grip Bench Press", "Arms", Standard),
    Exercise("dips", "Dips", "Arms", Standard)
  ]

  /** The Core block of the built-in list, in listed order. */
  const CoreList: seq<Exercise> := [
    Exercise("plank", "Plank", "Core", Timed),
    Exercise("crunches", "Crunches", "Core", Standard),
    Exercise("russian-twists", "Russian Twists", "Core", Standard),
    Exercise("leg-raises", "Leg Raises", "Core", Standard),
    Exercise("mountain-climbers", "Mountain Climbers", "Core", RepsPerSide),
    Exercise("dead-bug", "Dead Bug", "Core", Standard),
    Exercise("bicycle-crunches", "Bicycle Crunches", "Core", Standard),
    Exercise("cable-woodchop", "Cable Woodchop", "Core", Standard)
  ]

  /** The built-in catalog, blocks in canonical group order. */
  const BuiltIns: seq<Exercise> := ChestList + BackList + LegsList + ShouldersList + ArmsList + CoreList

  predicate IdsDistinct(s: seq<Exercise>) {
    forall i, j :: 0 <= i < j < |s| ==> s[i].id != s[j].id
  }

  predicate IdsApart(a: seq<Exercise>, b: seq<Exercise>) {
    forall i, j :: 0 <= i < |a| && 0 <= j < |b| ==> a[i].id != b[j].id
  }

  predicate AllInGroup(s: seq<Exercise>, g: string) {
    forall i :: 0 <= i < |s| ==> s[i].muscleGroup == g
  }

  /** Position of a canonical group in `MuscleGroups`. */
  function GroupIndex(g: string): (r: nat)
    requires g in MuscleGroups
    ensures r < |MuscleGroups| && MuscleGroups[r] == g
  {
    if g == "Chest" then 0
    else if g == "Back" then 1
    else if g == "Legs" then 2
    else if g == "Shoulders" then 3
    else if g == "Arms" then 4
    else 5
  }

  /** The canonical list is exactly the six labels, in order, with no repeats. */
  lemma MuscleGroupsFacts()
    ensures |MuscleGroups| == 6
    ensures MuscleGroups[0] == "Chest" && MuscleGroups[1] == "Back" && MuscleGroups[2] == "Legs"
    ensures MuscleGroups[3] == "Shoulders" && MuscleGroups[4] == "Arms" && MuscleGroups[5] == "Core"
    ensures forall i, j :: 0 <= i < j < |MuscleGroups| ==> MuscleGroups[i] != MuscleGroups[j]
  {
  }

  lemma {:induction false} DistinctConcat(a: seq<Exercise>, b: seq<Exercise>)
    requires IdsDistinct(a) && IdsDistinct(b) && IdsApart(b, a)
    ensures IdsDistinct(a + b)
  {
    var c := a + b;
    forall i, j | 0 <= i < j < |c|
      ensures c[i].id != c[j].id
    {
      if j < |a| {
        assert c[i] == a[i] && c[j] == a[j];
      } else if i >= |a| {
        assert c[i] == b[i - |a|] && c[j] == b[j - |a|];
      } else {
        assert c[i] == a[i] && c[j] == b[j - |a|];
      }
    }
  }

  lemma ApartConcat(x: seq<Exercise>, a: seq<Exercise>, b: seq<Exercise>)
    requires IdsApart(x, a) && IdsApart(x, b)
    ensures IdsApart(x, a + b)
  {
    forall i, j | 0 <= i < |x| && 0 <= j < |a + b|
      ensures x[i].id != (a + b)[j].id
    {
      if j >= |a| {
        assert (a + b)[j] == b[j - |a|];
      }
    }
  }

  lemma ChestIdsDistinct()
    ensures IdsDistinct(ChestList)
  {
  }

  lemma BackIdsDistinct()
    ensures IdsDistinct(BackList)
  {
  }

  lemma LegsIdsDistinct()
    ensures IdsDistinct(LegsList)
  {
  }

  lemma ShouldersIdsDistinct()
    ensures IdsDistinct(ShouldersList)
  {
  }

  lemma ArmsIdsDistinct()
    ensures IdsDistinct(ArmsList)
  {
  }

  lemma CoreIdsDistinct()
    ensures IdsDistinct(CoreList)
  {
  }

  lemma BackApartChest()
    ensures IdsApart(BackList, ChestList)
  {
  }

  lemma LegsApartChest()
    ensures IdsApart(LegsList, ChestList)
  {
  }

  lemma LegsApartBack()
    ensures IdsApart(LegsList, BackList)
  {
  }

  lemma ShouldersApartChest()
    ensures IdsApart(ShouldersList, ChestList)
  {
  }

  lemma ShouldersApartBack()
    ensures IdsApart(ShouldersList, BackList)
  {
  }

  lemma ShouldersApartLegs()
    ensures IdsApart(ShouldersList, LegsList)
  {
  }

  lemma ArmsApartChest()
    ensures IdsApart(ArmsList, ChestList)
  {
  }

  lemma ArmsApartBack()
    ensures IdsApart(ArmsList, BackList)
  {
  }

  lemma ArmsApartLegs()
    ensures IdsApart(ArmsList, LegsList)
  {
  }

  lemma ArmsApartShoulders()
    ensures IdsApart(ArmsList, ShouldersList)
  {
  }

  lemma CoreApartChest()
    ensures IdsApart(CoreList, ChestList)
  {
  }

  lemma CoreApartBack()
    ensures IdsApart(CoreList, BackList)
  {
  }

  lemma CoreApartLegs()
    ensures IdsApart(CoreList, LegsList)
  {
  }

  lemma CoreApartShoulders()
    ensures IdsApart(CoreList, ShouldersList)
  {
  }

  lemma CoreApartArms()
    ensures IdsApart(CoreList, ArmsList)
  {
  }

  /** The 46 built-in ids are pairwise distinct. */
  lemma {:induction false} BuiltInIdsDistinct()
    ensures |BuiltIns| == 46
    ensures IdsDistinct(BuiltIns)
  {
    ChestIdsDistinct(); BackIdsDistinct(); LegsIdsDistinct();
    ShouldersIdsDistinct(); ArmsIdsDistinct(); CoreIdsDistinct();
    var p1 := ChestList;
    BackApartChest();
    DistinctConcat(p1, BackList);
    var p2 := p1 + BackList;
    LegsApartChest(); LegsApartBack();
    ApartConcat(LegsList, ChestList, BackList);
    DistinctConcat(p2, LegsList);
    var p3 := p2 + LegsList;
    ShouldersApartChest(); ShouldersApartBack(); ShouldersApartLegs();
    ApartConcat(ShouldersList, ChestList, BackList);
    ApartConcat(ShouldersList, p2, LegsList);
    DistinctConcat(p3, ShouldersList);
    var p4 := p3 + ShouldersList;
    ArmsApartChest(); ArmsApartBack(); ArmsApartLegs(); ArmsApartShoulders();
    ApartConcat(ArmsList, ChestList, BackList);
    ApartConcat(ArmsList, p2, LegsList);
    ApartConcat(ArmsList, p3, ShouldersList);
    DistinctConcat(p4, ArmsList);
    var p5 := p4 + ArmsList;
    CoreApartChest(); CoreApartBack(); CoreApartLegs(); CoreApartShoulders(); CoreApartArms();
    ApartConcat(CoreList, ChestList, BackList);
    ApartConcat(CoreList, p2, LegsList);
    ApartConcat(CoreList, p3, ShouldersList);
    ApartConcat(CoreList, p4, ArmsList);
    DistinctConcat(p5, CoreList);
  }
  /** Every entry of `s` carries a canonical label, and the labels never go back in canonical order. */
  predicate InCanonicalOrder(s: seq<Exercise>) {
    && (forall i :: 0 <= i < |s| ==> s[i].muscleGroup in MuscleGroups)
    && (forall i, j :: 0 <= i < j < |s| ==> GroupIndex(s[i].muscleGroup) <= GroupIndex(s[j].muscleGroup))
  }

  lemma {:induction false} CanonicalOrderConcat(a: seq<Exercise>, b: seq<Exercise>, g: string)
    requires g in MuscleGroups
    requires InCanonicalOrder(a) && AllInGroup(b, g)
    requires forall i :: 0 <= i < |a| ==> GroupIndex(a[i].muscleGroup) <= GroupIndex(g)
    ensures InCanonicalOrder(a + b)
    ensures forall i :: 0 <= i < |a + b| ==> GroupIndex((a + b)[i].muscleGroup) <= GroupIndex(g)
  {
    var c := a + b;
    forall i | 0 <= i < |c|
      ensures c[i].muscleGroup in MuscleGroups && GroupIndex(c[i].muscleGroup) <= GroupIndex(g)
    {
      if i >= |a| {
        assert c[i] == b[i - |a|];
      }
    }
    forall i, j | 0 <= i < j < |c|
      ensures GroupIndex(c[i].muscleGroup) <= GroupIndex(c[j].muscleGroup)
    {
      if j < |a| {
        assert c[i] == a[i] && c[j] == a[j];
      } else if i >= |a| {
        assert c[i] == b[i - |a|] && c[j] == b[j - |a|];
      } else {
        assert c[i] == a[i] && c[j] == b[j - |a|];
      }
    }
  }

  lemma ChestInGroup() ensures AllInGroup(ChestList, "Chest") {}
  lemma BackInGroup() ensures AllInGroup(BackList, "Back") {}
  lemma LegsInGroup() ensures AllInGroup(LegsList, "Legs") {}
  lemma ShouldersInGroup() ensures AllInGroup(ShouldersList, "Shoulders") {}
  lemma ArmsInGroup() ensures AllInGroup(ArmsList, "Arms") {}
  lemma CoreInGroup() ensures AllInGroup(CoreList, "Core") {}

  /** Each block carries its own group's label throughout. */
  lemma BlocksInGroups()
    ensures AllInGroup(ChestList, "Chest") && AllInGroup(BackList, "Back") && AllInGroup(LegsList, "Legs")
    ensures AllInGroup(ShouldersList, "Shoulders") && AllInGroup(ArmsList, "Arms") && AllInGroup(CoreList, "Core")
  {
    ChestInGroup();
    BackInGroup();
    LegsInGroup();
    ShouldersInGroup();
    ArmsInGroup();
    CoreInGroup();
  }

  lemma GroupIndexValues()
    ensures "Chest" in MuscleGroups && GroupIndex("Chest") == 0
    ensures "Back" in MuscleGroups && GroupIndex("Back") == 1
    ensures "Legs" in MuscleGroups && GroupIndex("Legs") == 2
    ensures "Shoulders" in MuscleGroups && GroupIndex("Shoulders") == 3
    ensures "Arms" in MuscleGroups && GroupIndex("Arms") == 4
    ensures "Core" in MuscleGroups && GroupIndex("Core") == 5
  {
  }

  /** A block of one canonical group is in canonical order, every entry at that group's position. */
  lemma BlockInOrder(s: seq<Exercise>, g: string)
    requires g in MuscleGroups && AllInGroup(s, g)
    ensures InCanonicalOrder(s)
    ensures forall i :: 0 <= i < |s| ==> GroupIndex(s[i].muscleGroup) == GroupIndex(g)
  {
  }

  /**
    Every built-in belongs to a canonical group, and the built-ins are listed
    group by group, in canonical group order.
   */
  lemma {:induction false} BuiltInsInCanonicalOrder()
    ensures InCanonicalOrder(BuiltIns)
  {
    BlocksInGroups();
    GroupIndexValues();
    var p1 := ChestList;
    BlockInOrder(p1, "Chest");
    CanonicalOrderConcat(p1, BackList, "Back");
    var p2 := p1 + BackList;
    CanonicalOrderConcat(p2, LegsList, "Legs");
    var p3 := p2 + LegsList;
    CanonicalOrderConcat(p3, ShouldersList, "Shoulders");
    var p4 := p3 + ShouldersList;
    CanonicalOrderConcat(p4, ArmsList, "Arms");
    var p5 := p4 + ArmsList;
    CanonicalOrderConcat(p5, CoreList, "Core");
  }

  /** Only `plank` is timed and only `mountain-climbers` is counted per side. */
  predicate KindsAsListed(s: seq<Exercise>) {
    forall i :: 0 <= i < |s| ==>
      && (s[i].kind == Timed <==> s[i].id == "plank")
      && (s[i].kind == RepsPerSide <==> s[i].id == "mountain-climbers")
  }

  lemma KindsConcat(a: seq<Exercise>, b: seq<Exercise>)
    requires KindsAsListed(a) && KindsAsListed(b)
    ensures KindsAsListed(a + b)
  {
    forall i | |a| <= i < |a + b|
      ensures (a + b)[i] == b[i - |a|]
    {
    }
  }

  lemma ChestKinds() ensures KindsAsListed(ChestList) {}
  lemma BackKinds() ensures KindsAsListed(BackList) {}
  lemma LegsKinds() ensures KindsAsListed(LegsList) {}
  lemma ShouldersKinds() ensures KindsAsListed(ShouldersList) {}
  lemma ArmsKinds() ensures KindsAsListed(ArmsList) {}
  lemma CoreKinds() ensures KindsAsListed(CoreList) {}

  lemma {:induction false} BuiltInKinds()
    ensures KindsAsListed(BuiltIns)
    ensures forall i :: 0 <= i < |BuiltIns| && BuiltIns[i].id != "plank" && BuiltIns[i].id != "mountain-climbers"
              ==> BuiltIns[i].kind == Standard
  {
    ChestKinds();
    BackKinds();
    LegsKinds();
    ShouldersKinds();
    ArmsKinds();
    CoreKinds();
    var p1 := ChestList + BackList;
    KindsConcat(ChestList, BackList);
    var p2 := p1 + LegsList;
    KindsConcat(p1, LegsList);
    var p3 := p2 + ShouldersList;
    KindsConcat(p2, ShouldersList);
    var p4 := p3 + ArmsList;
    KindsConcat(p3, ArmsList);
    KindsConcat(p4, CoreList);
  }
}
