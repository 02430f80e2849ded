/**
  The exercise catalog resolver: the full catalog (built-ins, then the
  user's custom exercises), its bucketing by muscle group with the user's
  per-group ordering applied, and the case-insensitive search.
 */
module Catalog {
  import opened Wrappers
  import opened Exercises
  import Seqs
  import StableSort
  import Text

  /** `getAllExercises`: the built-ins followed by the custom exercises. */
  function AllExercises(custom: seq<Exercise>): (r: seq<Exercise>)
    ensures |r| == |BuiltIns| + |custom|
    ensures r[..|BuiltIns|] == BuiltIns && r[|BuiltIns|..] == custom
  {
    BuiltIns + custom
  }

  /** `e => e.muscleGroup === g`. */
  function OfGroup(g: string): Exercise -> bool {
    (e: Exercise) => e.muscleGroup == g
  }

  /** `s.filter(e => e.muscleGroup === g)`: every entry of group `g`, in its order in `s`. */
  function InGroup(s: seq<Exercise>, g: string): (r: seq<Exercise>)
    ensures Seqs.SubsequenceOf(r, s)
    ensures forall x :: x in r <==> x in s && x.muscleGroup == g
    ensures |r| == Seqs.Count(s, OfGroup(g)) <= |s|
  {
    Seqs.Filter(s, OfGroup(g))
  }

  /** Filtering a catalog by group filters its two parts. */
  lemma InGroupConcat(a: seq<Exercise>, b: seq<Exercise>, g: string)
    ensures InGroup(a + b, g) == InGroup(a, g) + InGroup(b, g)
  {
    Seqs.FilterConcat(a, b, OfGroup(g));
  }

  lemma InGroupSnoc(s: seq<Exercise>, x: Exercise, g: string)
    ensures InGroup(s + [x], g) == InGroup(s, g) + (if x.muscleGroup == g then [x] else [])
  {
    InGroupConcat(s, [x], g);
  }

  lemma {:induction false} InGroupKeepsDistinct(s: seq<Exercise>, g: string)
    requires IdsDistinct(s)
    ensures IdsDistinct(InGroup(s, g))
  {
    if |s| > 0 {
      InGroupKeepsDistinct(s[1..], g);
    }
  }

  /** `b.find(e => e.id === id)` finds something. */
  predicate HasId(b: seq<Exercise>, id: string) {
    exists i :: 0 <= i < |b| && b[i].id == id
  }

  /** `s[i]` is the first entry of `s` with its id. */
  predicate FirstOfId(s: seq<Exercise>, i: int) {
    0 <= i < |s| && forall j :: 0 <= j < i ==> s[j].id != s[i].id
  }

  /** `x` occurs in `s` ahead of every other entry with its id. */
  predicate FirstOfItsId(s: seq<Exercise>, x: Exercise) {
    exists i :: 0 <= i < |s| && FirstOfId(s, i) && s[i] == x
  }

  /**
    Drops every entry whose id already occurred earlier: the first
    occurrence of an id wins. Defined on growing prefixes, as the entries
    arrive one by one.
   */
  function KeepFirstById(s: seq<Exercise>): (r: seq<Exercise>)
    ensures |r| <= |s|
  {
    if |s| == 0 then []
    else
      var d := KeepFirstById(s[..|s| - 1]);
      if HasId(d, s[|s| - 1].id) then d else d + [s[|s| - 1]]
  }

  /**
    What `KeepFirstById` keeps: ids are pairwise distinct, every id of the
    input survives, an entry survives exactly when it is the first of its
    id, and the survivors keep their order in the input.
   */
  lemma {:induction false} KeepFirstByIdSpec(s: seq<Exercise>)
    ensures Seqs.SubsequenceOf(KeepFirstById(s), s)
    ensures IdsDistinct(KeepFirstById(s))
    ensures forall id :: HasId(KeepFirstById(s), id) <==> HasId(s, id)
    ensures forall x :: x in KeepFirstById(s) <==> FirstOfItsId(s, x)
  {
    if |s| > 0 {
      var p := s[..|s| - 1];
      var x := s[|s| - 1];
      assert s == p + [x];
      KeepFirstByIdSpec(p);
      var d := KeepFirstById(p);
      Seqs.SubsequenceSnoc(d, p, x);
      if HasId(d, x.id) {
        DedupStepRepeated(p, x, d);
      } else {
        DedupStepNew(p, x, d);
      }
    }
  }

  /** `r` is `s` with every repeated id dropped after its first occurrence, in any order. */
  ghost predicate Deduplicates(s: seq<Exercise>, r: seq<Exercise>) {
    && IdsDistinct(r)
    && (forall id :: HasId(r, id) <==> HasId(s, id))
    && (forall x :: x in r <==> FirstOfItsId(s, x))
  }

  lemma HasIdSnoc(p: seq<Exercise>, x: Exercise)
    ensures forall id :: HasId(p + [x], id) <==> HasId(p, id) || x.id == id
  {
    var s := p + [x];
    forall id | HasId(s, id)
      ensures HasId(p, id) || x.id == id
    {
      var i :| 0 <= i < |s| && s[i].id == id;
      if i < |p| {
        assert p[i] == s[i];
      }
    }
    forall id | HasId(p, id)
      ensures HasId(s, id)
    {
      var i :| 0 <= i < |p| && p[i].id == id;
      assert s[i] == p[i];
    }
    assert s[|p|] == x;
  }

  lemma FirstOfItsIdSnoc(p: seq<Exercise>, x: Exercise)
    ensures forall y :: FirstOfItsId(p, y) ==> FirstOfItsId(p + [x], y)
    ensures forall y :: FirstOfItsId(p + [x], y) ==> FirstOfItsId(p, y) || (y == x && !HasId(p, x.id))
  {
    forall y | FirstOfItsId(p, y)
      ensures FirstOfItsId(p + [x], y)
    {
      FirstKept(p, x, y);
    }
    forall y | FirstOfItsId(p + [x], y) && !FirstOfItsId(p, y)
      ensures y == x && !HasId(p, x.id)
    {
      FirstAdded(p, x, y);
    }
  }

  lemma FirstKept(p: seq<Exercise>, x: Exercise, y: Exercise)
    requires FirstOfItsId(p, y)
    ensures FirstOfItsId(p + [x], y)
  {
    var s := p + [x];
    var i :| 0 <= i < |p| && FirstOfId(p, i) && p[i] == y;
    assert s[i] == p[i];
    assert FirstOfId(s, i);
  }

  lemma FirstAdded(p: seq<Exercise>, x: Exercise, y: Exercise)
    requires FirstOfItsId(p + [x], y) && !FirstOfItsId(p, y)
    ensures y == x && !HasId(p, x.id)
  {
    var s := p + [x];
    assert s[|p|] == x;
    assert forall j :: 0 <= j < |p| ==> s[j] == p[j];
    var i :| 0 <= i < |s| && FirstOfId(s, i) && s[i] == y;
  }

  lemma DedupStepRepeated(p: seq<Exercise>, x: Exercise, d: seq<Exercise>)
    requires Deduplicates(p, d) && HasId(d, x.id)
    ensures Deduplicates(p + [x], d)
  {
    HasIdSnoc(p, x);
    FirstOfItsIdSnoc(p, x);
  }

  lemma DedupStepNew(p: seq<Exercise>, x: Exercise, d: seq<Exercise>)
    requires Deduplicates(p, d) && !HasId(d, x.id)
    ensures Deduplicates(p + [x], d + [x])
  {
    var s := p + [x];
    var r := d + [x];
    HasIdSnoc(p, x);
    HasIdSnoc(d, x);
    FirstOfItsIdSnoc(p, x);
    assert FirstOfItsId(s, x) by {
      assert s[|p|] == x;
      forall j | 0 <= j < |p|
        ensures s[j].id != x.id
      {
        assert s[j] == p[j];
      }
      assert FirstOfId(s, |p|);
    }
    forall i, j | 0 <= i < j < |r|
      ensures r[i].id != r[j].id
    {
      if j == |r| - 1 {
        assert r[i] == d[i];
      } else {
        assert r[i] == d[i] && r[j] == d[j];
      }
    }
  }

  /** When the ids are already distinct nothing is dropped. */
  lemma {:induction false} KeepFirstByIdDistinct(s: seq<Exercise>)
    requires IdsDistinct(s)
    ensures KeepFirstById(s) == s
  {
    if |s| > 0 {
      var p := s[..|s| - 1];
      KeepFirstByIdDistinct(p);
      KeepFirstByIdSpec(p);
      assert !HasId(p, s[|s| - 1].id) by {
        forall i | 0 <= i < |p|
          ensures p[i].id != s[|s| - 1].id
        {
          assert p[i] == s[i];
        }
      }
    }
  }
  predicate Distinct(ks: seq<string>) {
    forall i, j :: 0 <= i < j < |ks| ==> ks[i] != ks[j]
  }

  /** Some entry of `s` has muscle group `g`. */
  predicate OccursGroup(s: seq<Exercise>, g: string) {
    exists i :: 0 <= i < |s| && s[i].muscleGroup == g
  }

  /** Index of the first entry of `s` with muscle group `g`, or `|s|` when there is none. */
  function FirstPosOfGroup(s: seq<Exercise>, g: string): (r: nat)
    ensures r <= |s|
    ensures r < |s| <==> OccursGroup(s, g)
    ensures r < |s| ==> s[r].muscleGroup == g
    ensures forall j :: 0 <= j < r ==> s[j].muscleGroup != g
  {
    if |s| == 0 then 0
    else if s[0].muscleGroup == g then 0
    else
      var r := 1 + FirstPosOfGroup(s[1..], g);
      assert OccursGroup(s, g) ==> OccursGroup(s[1..], g) by {
        if OccursGroup(s, g) {
          var i :| 0 <= i < |s| && s[i].muscleGroup == g;
          assert s[1..][i - 1] == s[i];
        }
      }
      assert OccursGroup(s[1..], g) ==> OccursGroup(s, g) by {
        if OccursGroup(s[1..], g) {
          var i :| 0 <= i < |s[1..]| && s[1..][i].muscleGroup == g;
          assert s[i + 1] == s[1..][i];
        }
      }
      r
  }

  lemma FirstPosSnoc(p: seq<Exercise>, x: Exercise, g: string)
    ensures OccursGroup(p, g) ==> FirstPosOfGroup(p + [x], g) == FirstPosOfGroup(p, g)
    ensures !OccursGroup(p, g) && x.muscleGroup == g ==> FirstPosOfGroup(p + [x], g) == |p|
  {
    var s := p + [x];
    var k := FirstPosOfGroup(s, g);
    var kp := FirstPosOfGroup(p, g);
    if OccursGroup(p, g) {
      assert s[kp] == p[kp];
    }
    if !OccursGroup(p, g) && x.muscleGroup == g {
      assert s[|p|] == x;
    }
  }

  lemma OccursGroupSnoc(p: seq<Exercise>, x: Exercise, g: string)
    ensures OccursGroup(p + [x], g) <==> OccursGroup(p, g) || x.muscleGroup == g
  {
    var s := p + [x];
    assert forall i :: 0 <= i < |p| ==> s[i] == p[i];
    assert s[|p|] == x;
  }

  /**
    The non-canonical muscle groups of `s`, each once, in the order they
    first appear: the ad-hoc keys `getExercisesByMuscleGroup` adds.
   */
  function AdHocLabels(s: seq<Exercise>): seq<string> {
    if |s| == 0 then []
    else
      var r := AdHocLabels(s[..|s| - 1]);
      var g := s[|s| - 1].muscleGroup;
      if g in MuscleGroups || g in r then r else r + [g]
  }

  /**
    The ad-hoc labels are pairwise distinct, are exactly the non-canonical
    groups that occur, and come in order of first appearance.
   */
  lemma AdHocLabelsSpec(s: seq<Exercise>)
    ensures Distinct(AdHocLabels(s))
    ensures forall g :: g in AdHocLabels(s) <==> g !in MuscleGroups && OccursGroup(s, g)
    ensures forall a, b :: 0 <= a < b < |AdHocLabels(s)| ==>
              FirstPosOfGroup(s, AdHocLabels(s)[a]) < FirstPosOfGroup(s, AdHocLabels(s)[b])
  {
    AdHocLabelsMembers(s);
    AdHocLabelsOrdered(s);
  }

  /** The ad-hoc labels are exactly the non-canonical groups that occur, each once. */
  lemma {:induction false} AdHocLabelsMembers(s: seq<Exercise>)
    ensures Distinct(AdHocLabels(s))
    ensures forall g :: g in AdHocLabels(s) <==> g !in MuscleGroups && OccursGroup(s, g)
  {
    if |s| > 0 {
      var p := s[..|s| - 1];
      var x := s[|s| - 1];
      assert s == p + [x];
      AdHocLabelsMembers(p);
      AdHocLabelsSnoc(p, x);
      forall g
        ensures OccursGroup(s, g) <==> OccursGroup(p, g) || x.muscleGroup == g
      {
        OccursGroupSnoc(p, x, g);
      }
    }
  }

  /** The ad-hoc labels come in the order of their first appearance. */
  lemma {:induction false} AdHocLabelsOrdered(s: seq<Exercise>)
    ensures forall a, b :: 0 <= a < b < |AdHocLabels(s)| ==>
              FirstPosOfGroup(s, AdHocLabels(s)[a]) < FirstPosOfGroup(s, AdHocLabels(s)[b])
  {
    if |s| > 0 {
      var p := s[..|s| - 1];
      var x := s[|s| - 1];
      assert s == p + [x];
      AdHocLabelsOrdered(p);
      AdHocLabelsMembers(p);
      AdHocLabelsSnoc(p, x);
      var l, q := AdHocLabels(p), AdHocLabels(s);
      forall a, b | 0 <= a < b < |q|
        ensures FirstPosOfGroup(s, q[a]) < FirstPosOfGroup(s, q[b])
      {
        assert q[a] == l[a] && l[a] in l;
        FirstPosSnoc(p, x, l[a]);
        if b < |l| {
          assert q[b] == l[b] && l[b] in l;
          FirstPosSnoc(p, x, l[b]);
        } else {
          FirstPosSnoc(p, x, q[b]);
        }
      }
    }
  }

  /**
    A JavaScript object from group label to exercise list: `keys` is the
    enumeration order of its own properties, `buckets` their values.
   */
  datatype Grouping = Grouping(keys: seq<string>, buckets: map<string, seq<Exercise>>)

  ghost predicate WellFormed(gr: Grouping) {
    && Distinct(gr.keys)
    && forall g :: g in gr.buckets <==> g in gr.keys
  }

  /** One bucket per canonical group, each the catalog filtered to that group. */
  function Seed(cat: seq<Exercise>): Grouping {
    Grouping(MuscleGroups, map g | g in MuscleGroups :: InGroup(cat, g))
  }

  /**
    One step of the ad-hoc pass: an exercise of a non-canonical group gets a
    bucket for its label if there is none yet, and joins it unless an
    exercise with the same id is already there.
   */
  function AddAdHoc(gr: Grouping, e: Exercise): Grouping {
    if e.muscleGroup in MuscleGroups then gr
    else
      var g := e.muscleGroup;
      var known := g in gr.buckets;
      var b := if known then gr.buckets[g] else [];
      Grouping(if known then gr.keys else gr.keys + [g],
               gr.buckets[g := if HasId(b, e.id) then b else b + [e]])
  }

  /** The ad-hoc pass over the entries of `s`, in order, starting from `gr`. */
  function AdHocPass(gr: Grouping, s: seq<Exercise>): Grouping {
    if |s| == 0 then gr else AddAdHoc(AdHocPass(gr, s[..|s| - 1]), s[|s| - 1])
  }

  /** The buckets of a catalog before any user ordering is applied. */
  function Bucketed(cat: seq<Exercise>): Grouping {
    AdHocPass(Seed(cat), cat)
  }

  /**
    The bucket a label gets before ordering: the filtered catalog for a
    canonical group, the filtered catalog with later duplicate ids dropped
    for an ad-hoc one.
   */
  function UnorderedBucket(cat: seq<Exercise>, g: string): seq<Exercise> {
    if g in MuscleGroups then InGroup(cat, g) else KeepFirstById(InGroup(cat, g))
  }

  /** What the ad-hoc pass has built after the entries `p`. */
  ghost predicate PassInvariant(cat: seq<Exercise>, p: seq<Exercise>, gr: Grouping) {
    && gr.keys == MuscleGroups + AdHocLabels(p)
    && (forall g :: g in gr.buckets <==> g in MuscleGroups || g in AdHocLabels(p))
    && CanonicalBucketsFiltered(cat, gr)
    && AdHocBucketsDeduplicated(p, gr)
  }

  ghost predicate CanonicalBucketsFiltered(cat: seq<Exercise>, gr: Grouping) {
    forall g :: g in MuscleGroups ==> g in gr.buckets && gr.buckets[g] == InGroup(cat, g)
  }

  ghost predicate AdHocBucketsDeduplicated(p: seq<Exercise>, gr: Grouping) {
    forall g :: g in AdHocLabels(p) ==> g in gr.buckets && gr.buckets[g] == KeepFirstById(InGroup(p, g))
  }

  lemma StepCanonical(cat: seq<Exercise>, q: seq<Exercise>, x: Exercise, gr: Grouping)
    requires x.muscleGroup in MuscleGroups
    requires PassInvariant(cat, q, gr)
    ensures PassInvariant(cat, q + [x], AddAdHoc(gr, x))
  {
    var p := q + [x];
    AdHocLabelsSnoc(q, x);
    forall g | g in AdHocLabels(q)
      ensures InGroup(p, g) == InGroup(q, g)
    {
      AdHocLabelsSpec(q);
      InGroupSnoc(q, x, g);
    }
  }

  /** One more entry adds its label at the end when it is ad hoc and new, and nothing otherwise. */
  lemma AdHocLabelsSnoc(q: seq<Exercise>, x: Exercise)
    ensures AdHocLabels(q + [x]) ==
              if x.muscleGroup in MuscleGroups || x.muscleGroup in AdHocLabels(q) then AdHocLabels(q)
              else AdHocLabels(q) + [x.muscleGroup]
  {
    var p := q + [x];
    assert p[..|p| - 1] == q && p[|p| - 1] == x;
  }

  lemma StepAdHocKeys(cat: seq<Exercise>, q: seq<Exercise>, x: Exercise, gr: Grouping)
    requires x.muscleGroup !in MuscleGroups
    requires PassInvariant(cat, q, gr)
    ensures AddAdHoc(gr, x).keys == MuscleGroups + AdHocLabels(q + [x])
    ensures forall g :: g in AddAdHoc(gr, x).buckets <==> g in MuscleGroups || g in AdHocLabels(q + [x])
    ensures CanonicalBucketsFiltered(cat, AddAdHoc(gr, x))
  {
    var g0 := x.muscleGroup;
    var l := AdHocLabels(q);
    AdHocLabelsSnoc(q, x);
    if g0 !in l {
      assert (MuscleGroups + l) + [g0] == MuscleGroups + (l + [g0]);
    }
  }

  lemma StepAdHocNewBucket(cat: seq<Exercise>, q: seq<Exercise>, x: Exercise, gr: Grouping)
    requires x.muscleGroup !in MuscleGroups
    requires PassInvariant(cat, q, gr)
    ensures AddAdHoc(gr, x).buckets[x.muscleGroup] == KeepFirstById(InGroup(q + [x], x.muscleGroup))
  {
    var g0 := x.muscleGroup;
    var known := g0 in AdHocLabels(q);
    InGroupSnoc(q, x, g0);
    if !known {
      AdHocLabelsSpec(q);
    }
    var s := InGroup(q + [x], g0);
    var t := InGroup(q, g0);
    assert s == t + [x];
    assert s[..|s| - 1] == t && s[|s| - 1] == x;
    var d := KeepFirstById(t);
    assert KeepFirstById(s) == if HasId(d, x.id) then d else d + [x];
    assert (g0 in gr.buckets && gr.buckets[g0] == d) || (g0 !in gr.buckets && d == []);
  }

  lemma StepAdHocOtherBuckets(cat: seq<Exercise>, q: seq<Exercise>, x: Exercise, gr: Grouping, g: string)
    requires x.muscleGroup !in MuscleGroups
    requires PassInvariant(cat, q, gr)
    requires g in AdHocLabels(q + [x]) && g != x.muscleGroup
    ensures g in AddAdHoc(gr, x).buckets
    ensures AddAdHoc(gr, x).buckets[g] == KeepFirstById(InGroup(q + [x], g))
  {
    var p := q + [x];
    AdHocLabelsSnoc(q, x);
    assert g in AdHocLabels(q);
    InGroupSnoc(q, x, g);
    var a, b := InGroup(p, g), InGroup(q, g);
    assert a == b;
    assert AddAdHoc(gr, x).buckets[g] == gr.buckets[g] == KeepFirstById(b);
  }

  lemma StepAdHoc(cat: seq<Exercise>, q: seq<Exercise>, x: Exercise, gr: Grouping)
    requires x.muscleGroup !in MuscleGroups
    requires PassInvariant(cat, q, gr)
    ensures PassInvariant(cat, q + [x], AddAdHoc(gr, x))
  {
    StepAdHocKeys(cat, q, x, gr);
    StepAdHocNewBucket(cat, q, x, gr);
    forall g | g in AdHocLabels(q + [x]) && g != x.muscleGroup
      ensures g in AddAdHoc(gr, x).buckets
      ensures AddAdHoc(gr, x).buckets[g] == KeepFirstById(InGroup(q + [x], g))
    {
      StepAdHocOtherBuckets(cat, q, x, gr, g);
    }
  }

  lemma AddAdHocStep(cat: seq<Exercise>, q: seq<Exercise>, x: Exercise, gr: Grouping)
    requires PassInvariant(cat, q, gr)
    ensures PassInvariant(cat, q + [x], AddAdHoc(gr, x))
  {
    if x.muscleGroup in MuscleGroups {
      StepCanonical(cat, q, x, gr);
    } else {
      StepAdHoc(cat, q, x, gr);
    }
  }

  lemma {:induction false} AdHocPassFacts(cat: seq<Exercise>, p: seq<Exercise>)
    ensures PassInvariant(cat, p, AdHocPass(Seed(cat), p))
  {
    if |p| > 0 {
      var q := p[..|p| - 1];
      assert p == q + [p[|p| - 1]];
      AdHocPassFacts(cat, q);
      AddAdHocStep(cat, q, p[|p| - 1], AdHocPass(Seed(cat), q));
    }
  }

  /** The buckets before ordering: canonical keys first, then the ad-hoc labels, each with its bucket. */
  lemma BucketedFacts(cat: seq<Exercise>)
    ensures Bucketed(cat).keys == MuscleGroups + AdHocLabels(cat)
    ensures WellFormed(Bucketed(cat))
    ensures forall g :: g in Bucketed(cat).buckets ==> Bucketed(cat).buckets[g] == UnorderedBucket(cat, g)
  {
    AdHocPassFacts(cat, cat);
    AdHocLabelsSpec(cat);
    MuscleGroupsFacts();
    DistinctAppend(MuscleGroups, AdHocLabels(cat));
  }

  /** Two repeat-free lists with nothing in common append to a repeat-free list. */
  lemma DistinctAppend(a: seq<string>, b: seq<string>)
    requires Distinct(a) && Distinct(b)
    requires forall k :: k in b ==> k !in a
    ensures Distinct(a + b)
  {
    var ks := a + b;
    forall i, j | 0 <= i < j < |ks|
      ensures ks[i] != ks[j]
    {
      if j >= |a| && i < |a| {
        assert ks[j] == b[j - |a|] && b[j - |a|] in b;
        assert ks[i] == a[i] && a[i] in a;
      } else if i >= |a| {
        assert ks[i] == b[i - |a|] && ks[j] == b[j - |a|];
      } else {
        assert ks[i] == a[i] && ks[j] == a[j];
      }
    }
  }

  // ----- Per-group ordering -----

  /**
    `new Map(order.map((id, i) => [id, i]))`: each id of the list maps to a
    position holding it, and a repeated id keeps its last position because
    later pairs overwrite earlier ones.
   */
  function OrderMap(ids: seq<string>): (m: map<string, nat>)
    ensures forall id :: id in m <==> id in ids
    ensures forall id :: id in m ==> m[id] < |ids| && ids[m[id]] == id
    ensures forall id, j :: id in m && m[id] < j < |ids| ==> ids[j] != id
  {
    if |ids| == 0 then map[]
    else
      var p := ids[..|ids| - 1];
      var m := OrderMap(p);
      assert forall id :: id in ids <==> id in p || id == ids[|ids| - 1] by {
        assert ids == p + [ids[|ids| - 1]];
      }
      m[ids[|ids| - 1] := |ids| - 1]
  }

  /**
    The rank the comparator uses for an id: its last position in the order
    list, or `|ids|` for an id the list does not name. `|ids|` stands in for
    `Infinity`: it is larger than every position, and two unranked entries
    tie (see `ComparatorAgreesWithRank`).
   */
  function Rank(ids: seq<string>, id: string): (r: nat)
    ensures r <= |ids|
    ensures r < |ids| <==> id in ids
    ensures r < |ids| ==> ids[r] == id && forall j :: r < j < |ids| ==> ids[j] != id
  {
    var m := OrderMap(ids);
    if id in m then m[id] else |ids|
  }

  function RankKey(ids: seq<string>): Exercise -> int {
    (e: Exercise) => Rank(ids, e.id)
  }

  /**
    A JavaScript number, as far as the comparator needs it: the positions in
    the map are finite, a missing id is `Infinity`.
   */
  datatype JsNumber = Finite(v: int) | PosInfinity | NegInfinity | NaN

  /** IEEE 754 subtraction restricted to the values above. */
  function Subtract(a: JsNumber, b: JsNumber): JsNumber {
    match (a, b)
    case (NaN, _) => NaN
    case (_, NaN) => NaN
    case (PosInfinity, PosInfinity) => NaN
    case (NegInfinity, NegInfinity) => NaN
    case (PosInfinity, _) => PosInfinity
    case (NegInfinity, _) => NegInfinity
    case (_, PosInfinity) => NegInfinity
    case (_, NegInfinity) => PosInfinity
    case (Finite(x), Finite(y)) => Finite(x - y)
  }

  /**
    How `Array.prototype.sort` reads a comparator result (the
    CompareArrayElements operation of the ECMAScript language
    specification): `NaN` counts as `+0`, a tie; otherwise only the sign
    matters.
   */
  function CompareSign(n: JsNumber): int {
    match n
    case NaN => 0
    case PosInfinity => 1
    case NegInfinity => -1
    case Finite(v) => if v < 0 then -1 else if v > 0 then 1 else 0
  }

  /** `orderMap.has(id) ? orderMap.get(id) : Infinity`. */
  function IndexOf(m: map<string, nat>, id: string): JsNumber {
    if id in m then Finite(m[id]) else PosInfinity
  }

  /** The sign the source's comparator yields for `a` and `b`. */
  function Comparator(ids: seq<string>, a: Exercise, b: Exercise): int {
    var m := OrderMap(ids);
    CompareSign(Subtract(IndexOf(m, a.id), IndexOf(m, b.id)))
  }

  function Sign(n: int): int {
    if n < 0 then -1 else if n > 0 then 1 else 0
  }

  /**
    The comparator orders exactly as the ranks do: two unranked entries
    (`Infinity - Infinity`, that is `NaN`) tie, a ranked entry precedes an
    unranked one, and two ranked entries compare by position.
   */
  lemma ComparatorAgreesWithRank(ids: seq<string>, a: Exercise, b: Exercise)
    ensures Comparator(ids, a, b) == Sign(Rank(ids, a.id) - Rank(ids, b.id))
  {
  }

  /** A bucket re-sorted by the order list: the stable sort by rank. */
  function SortByRank(ids: seq<string>, b: seq<Exercise>): (r: seq<Exercise>)
    ensures multiset(r) == multiset(b)
    ensures forall i, j :: 0 <= i < j < |r| ==> Rank(ids, r[i].id) <= Rank(ids, r[j].id)
    ensures forall i, j :: 0 <= i < j < |r| ==> Comparator(ids, r[i], r[j]) <= 0
  {
    var r := StableSort.Sort(b, RankKey(ids));
    assert forall i, j :: 0 <= i < j < |r| ==> Rank(ids, r[i].id) <= Rank(ids, r[j].id) by {
      forall i, j | 0 <= i < j < |r|
        ensures Rank(ids, r[i].id) <= Rank(ids, r[j].id)
      {
        assert RankKey(ids)(r[i]) <= RankKey(ids)(r[j]);
      }
    }
    forall i, j | 0 <= i < j < |r|
      ensures Comparator(ids, r[i], r[j]) <= 0
    {
      ComparatorAgreesWithRank(ids, r[i], r[j]);
    }
    r
  }

  /** The bucket for label `g` once the user's order (if any) is applied. */
  function OrderedBucket(order: map<string, seq<string>>, g: string, b: seq<Exercise>): seq<Exercise> {
    if g in order && |order[g]| > 0 then SortByRank(order[g], b) else b
  }

  /** `getExercisesByMuscleGroup(customExercises, exerciseOrder)`. */
  function ByMuscleGroup(custom: seq<Exercise>, order: map<string, seq<string>>): Grouping {
    Arrange(Bucketed(AllExercises(custom)), order)
  }

  /** Every bucket of `b` put in the user's order for its label; the keys stay as they are. */
  function Arrange(b: Grouping, order: map<string, seq<string>>): Grouping {
    Grouping(b.keys, map g | g in b.buckets :: OrderedBucket(order, g, b.buckets[g]))
  }

  /** Arranging by an order map with an entry for a label `b` has no bucket for is arranging without it. */
  lemma ArrangeIgnoresUnknown(b: Grouping, order: map<string, seq<string>>, g: string)
    requires g !in b.buckets
    ensures Arrange(b, order) == Arrange(b, order - {g})
  {
    var rest := order - {g};
    forall h | h in b.buckets
      ensures OrderedBucket(order, h, b.buckets[h]) == OrderedBucket(rest, h, b.buckets[h])
    {
      assert (h in order) == (h in rest);
    }
  }

  // ----- What the resolver promises -----

  /** The entries of `b` the order list does not name, in their order in `b`. */
  function Unranked(ids: seq<string>, b: seq<Exercise>): (r: seq<Exercise>)
    ensures forall x :: x in r <==> x in b && x.id !in ids
  {
    if |b| == 0 then []
    else if b[0].id !in ids then [b[0]] + Unranked(ids, b[1..])
    else Unranked(ids, b[1..])
  }

  /** The unranked entries are exactly the class of the largest rank. */
  lemma {:induction false} UnrankedIsTopRank(ids: seq<string>, b: seq<Exercise>)
    ensures StableSort.WithKey(b, RankKey(ids), |ids|) == Unranked(ids, b)
  {
    if |b| > 0 {
      UnrankedIsTopRank(ids, b[1..]);
      assert RankKey(ids)(b[0]) == |ids| <==> b[0].id !in ids;
    }
  }

  /**
    The keys of the result are the six canonical groups, each present even
    when its bucket is empty, followed by the ad-hoc labels in order of
    first appearance; they do not depend on the order map, and there is a
    bucket for exactly these keys.
   */
  lemma ByMuscleGroupKeys(custom: seq<Exercise>, order: map<string, seq<string>>)
    ensures ByMuscleGroup(custom, order).keys == MuscleGroups + AdHocLabels(AllExercises(custom))
    ensures WellFormed(ByMuscleGroup(custom, order))
    ensures forall g :: g in ByMuscleGroup(custom, order).buckets <==>
              g in MuscleGroups || OccursGroup(AllExercises(custom), g)
  {
    var cat := AllExercises(custom);
    BucketedFacts(cat);
    AdHocLabelsSpec(cat);
  }

  /** Every bucket, ordered or not, holds the entries of its unordered bucket. */
  lemma BucketContents(custom: seq<Exercise>, order: map<string, seq<string>>, g: string)
    requires g in ByMuscleGroup(custom, order).buckets
    ensures multiset(ByMuscleGroup(custom, order).buckets[g]) == multiset(UnorderedBucket(AllExercises(custom), g))
  {
    BucketedFacts(AllExercises(custom));
  }

  /** Without a non-empty order list for it, a canonical bucket is the catalog filtered to that group. */
  lemma CanonicalBucketUnordered(custom: seq<Exercise>, order: map<string, seq<string>>, g: string)
    requires g in MuscleGroups
    requires !(g in order && |order[g]| > 0)
    ensures g in ByMuscleGroup(custom, order).buckets
    ensures ByMuscleGroup(custom, order).buckets[g] == InGroup(AllExercises(custom), g)
  {
    BucketedFacts(AllExercises(custom));
  }

  /** Without a non-empty order list for it, an ad-hoc bucket is the filtered catalog with later duplicate ids dropped. */
  lemma AdHocBucketUnordered(custom: seq<Exercise>, order: map<string, seq<string>>, g: string)
    requires g !in MuscleGroups && OccursGroup(AllExercises(custom), g)
    requires !(g in order && |order[g]| > 0)
    ensures g in ByMuscleGroup(custom, order).buckets
    ensures ByMuscleGroup(custom, order).buckets[g] == KeepFirstById(InGroup(AllExercises(custom), g))
  {
    ByMuscleGroupKeys(custom, order);
    BucketedFacts(AllExercises(custom));
  }

  /**
    An ad-hoc bucket, ordered or not, holds exercises of exactly its label
    with pairwise distinct ids, and an exercise is in it exactly when it is
    the first of its id among the catalog's exercises of that label.
   */
  lemma AdHocBucketFacts(custom: seq<Exercise>, order: map<string, seq<string>>, g: string)
    requires g !in MuscleGroups && g in ByMuscleGroup(custom, order).buckets
    ensures forall x :: x in ByMuscleGroup(custom, order).buckets[g] ==> x.muscleGroup == g
    ensures IdsDistinct(ByMuscleGroup(custom, order).buckets[g])
    ensures forall x :: x in ByMuscleGroup(custom, order).buckets[g] <==> FirstOfItsId(InGroup(AllExercises(custom), g), x)
  {
    var cat := AllExercises(custom);
    var r := ByMuscleGroup(custom, order).buckets[g];
    var f := InGroup(cat, g);
    var u := KeepFirstById(f);
    BucketContents(custom, order, g);
    assert UnorderedBucket(cat, g) == u;
    KeepFirstByIdSpec(f);
    DedupedFacts(f, u, r, g);
  }

  lemma DedupedFacts(f: seq<Exercise>, u: seq<Exercise>, r: seq<Exercise>, g: string)
    requires forall x :: x in f ==> x.muscleGroup == g
    requires IdsDistinct(u) && forall x :: x in u <==> FirstOfItsId(f, x)
    requires multiset(r) == multiset(u)
    ensures forall x :: x in r ==> x.muscleGroup == g
    ensures IdsDistinct(r)
    ensures forall x :: x in r <==> FirstOfItsId(f, x)
  {
    forall x
      ensures x in r <==> x in u
    {
      assert x in r <==> x in multiset(r);
      assert x in u <==> x in multiset(u);
    }
    forall x | x in u
      ensures x.muscleGroup == g
    {
      var i :| FirstOfId(f, i) && f[i] == x;
      assert x in f;
    }
    MultisetKeepsDistinct(u, r);
  }

  /** A permutation of a list with distinct ids has distinct ids. */
  lemma MultisetKeepsDistinct(u: seq<Exercise>, r: seq<Exercise>)
    requires IdsDistinct(u) && multiset(r) == multiset(u)
    ensures IdsDistinct(r)
  {
    forall i, j | 0 <= i < j < |r|
      ensures r[i].id != r[j].id
    {
      assert r[i] in multiset(u) && r[j] in multiset(u);
      var a :| 0 <= a < |u| && u[a] == r[i];
      var b :| 0 <= b < |u| && u[b] == r[j];
      if a == b {
        assert r == r[..i] + [r[i]] + r[i + 1..j] + [r[j]] + r[j + 1..];
        DistinctCountOne(u, a);
      }
    }
  }

  /** In a list with distinct ids every entry occurs once. */
  lemma DistinctCountOne(u: seq<Exercise>, a: int)
    requires IdsDistinct(u) && 0 <= a < |u|
    ensures multiset(u)[u[a]] == 1
  {
    assert u == u[..a] + [u[a]] + u[a + 1..];
  }

  /**
    With a non-empty order list `ids` for its label, a bucket is a
    permutation of its unordered contents sorted by rank: ranked entries
    come first, by their last position in `ids`; entries of equal rank,
    in particular all unranked ones, keep their relative order.
   */
  lemma OrderedBucketFacts(custom: seq<Exercise>, order: map<string, seq<string>>, g: string)
    requires g in ByMuscleGroup(custom, order).buckets
    requires g in order && |order[g]| > 0
    ensures multiset(ByMuscleGroup(custom, order).buckets[g]) == multiset(UnorderedBucket(AllExercises(custom), g))
    ensures forall i, j :: 0 <= i < j < |ByMuscleGroup(custom, order).buckets[g]| ==>
              var r := ByMuscleGroup(custom, order).buckets[g];
              Rank(order[g], r[i].id) <= Rank(order[g], r[j].id)
    ensures forall i, j :: 0 <= i < j < |ByMuscleGroup(custom, order).buckets[g]| ==>
              var r := ByMuscleGroup(custom, order).buckets[g];
              r[j].id in order[g] ==> r[i].id in order[g]
    ensures forall k :: StableSort.WithKey(ByMuscleGroup(custom, order).buckets[g], RankKey(order[g]), k)
                     == StableSort.WithKey(UnorderedBucket(AllExercises(custom), g), RankKey(order[g]), k)
    ensures Unranked(order[g], ByMuscleGroup(custom, order).buckets[g]) == Unranked(order[g], UnorderedBucket(AllExercises(custom), g))
  {
    var cat := AllExercises(custom);
    var ids := order[g];
    var b := UnorderedBucket(cat, g);
    BucketedFacts(cat);
    var r := ByMuscleGroup(custom, order).buckets[g];
    assert r == SortByRank(ids, b);
    forall k
      ensures StableSort.WithKey(r, RankKey(ids), k) == StableSort.WithKey(b, RankKey(ids), k)
    {
      StableSort.SortStable(b, RankKey(ids), k);
    }
    UnrankedIsTopRank(ids, r);
    UnrankedIsTopRank(ids, b);
  }

  /**
    The ordered bucket is the only arrangement with these properties: any
    list sorted by rank whose entries of each rank appear in their unordered
    order equals it.
   */
  lemma OrderedBucketUnique(ids: seq<string>, b: seq<Exercise>, r: seq<Exercise>)
    requires forall i, j :: 0 <= i < j < |r| ==> Rank(ids, r[i].id) <= Rank(ids, r[j].id)
    requires forall k :: StableSort.WithKey(r, RankKey(ids), k) == StableSort.WithKey(b, RankKey(ids), k)
    ensures r == SortByRank(ids, b)
  {
    assert StableSort.SortedBy(r, RankKey(ids)) by {
      forall i, j | 0 <= i < j < |r|
        ensures RankKey(ids)(r[i]) <= RankKey(ids)(r[j])
      {
      }
    }
    StableSort.SortIsTheStableSort(b, r, RankKey(ids));
  }

  /** An order list naming none of a bucket's ids leaves the bucket as it is. */
  lemma UnknownIdsIgnored(ids: seq<string>, b: seq<Exercise>)
    requires forall x :: x in b ==> x.id !in ids
    ensures SortByRank(ids, b) == b
  {
    assert StableSort.SortedBy(b, RankKey(ids)) by {
      forall i, j | 0 <= i < j < |b|
        ensures RankKey(ids)(b[i]) <= RankKey(ids)(b[j])
      {
        assert b[i] in b && b[j] in b;
      }
    }
    StableSort.SortIsTheStableSort(b, b, RankKey(ids));
  }

  /** An order entry for a label that has no bucket is ignored: dropping it changes nothing. */
  lemma UnknownGroupIgnored(custom: seq<Exercise>, order: map<string, seq<string>>, g: string)
    requires g !in ByMuscleGroup(custom, order).buckets
    ensures ByMuscleGroup(custom, order) == ByMuscleGroup(custom, order - {g})
  {
    ArrangeIgnoresUnknown(Bucketed(AllExercises(custom)), order, g);
  }

  /** A permutation keeps which ids occur. */
  lemma HasIdPermutation(u: seq<Exercise>, r: seq<Exercise>, id: string)
    requires multiset(r) == multiset(u)
    ensures HasId(r, id) <==> HasId(u, id)
  {
    if HasId(u, id) {
      var i :| 0 <= i < |u| && u[i].id == id;
      assert u[i] in multiset(r);
      var j :| 0 <= j < |r| && r[j] == u[i];
    }
    if HasId(r, id) {
      var j :| 0 <= j < |r| && r[j].id == id;
      assert r[j] in multiset(u);
      var i :| 0 <= i < |u| && u[i] == r[j];
    }
  }

  /**
    Every bucket holds only catalog exercises of its own label, and every
    catalog exercise is filed under its label: a canonical one is itself in
    the bucket, an ad-hoc one is there or an earlier exercise with its id is.
   */
  lemma EveryExerciseFiled(custom: seq<Exercise>, order: map<string, seq<string>>, x: Exercise)
    requires x in AllExercises(custom)
    ensures x.muscleGroup in ByMuscleGroup(custom, order).buckets
    ensures x.muscleGroup in MuscleGroups ==> x in ByMuscleGroup(custom, order).buckets[x.muscleGroup]
    ensures HasId(ByMuscleGroup(custom, order).buckets[x.muscleGroup], x.id)
  {
    var cat := AllExercises(custom);
    var g := x.muscleGroup;
    var i :| 0 <= i < |cat| && cat[i] == x;
    assert OccursGroup(cat, g);
    ByMuscleGroupKeys(custom, order);
    BucketContents(custom, order, g);
    var r := ByMuscleGroup(custom, order).buckets[g];
    var u := UnorderedBucket(cat, g);
    assert x in InGroup(cat, g);
    if g in MuscleGroups {
      assert x in multiset(u);
      assert x in multiset(r);
    } else {
      KeepFirstByIdSpec(InGroup(cat, g));
      var k :| 0 <= k < |InGroup(cat, g)| && InGroup(cat, g)[k] == x;
      assert HasId(InGroup(cat, g), x.id);
    }
    HasIdPermutation(u, r, x.id);
  }

  lemma BucketsHoldTheirGroup(custom: seq<Exercise>, order: map<string, seq<string>>, g: string, x: Exercise)
    requires g in ByMuscleGroup(custom, order).buckets
    requires x in ByMuscleGroup(custom, order).buckets[g]
    ensures x in AllExercises(custom) && x.muscleGroup == g
  {
    var cat := AllExercises(custom);
    BucketContents(custom, order, g);
    var u := UnorderedBucket(cat, g);
    assert x in multiset(ByMuscleGroup(custom, order).buckets[g]);
    assert x in u;
    if g !in MuscleGroups {
      KeepFirstByIdSpec(InGroup(cat, g));
      var i :| 0 <= i < |InGroup(cat, g)| && FirstOfId(InGroup(cat, g), i) && InGroup(cat, g)[i] == x;
      assert x in InGroup(cat, g);
    }
  }

  // ----- Examples of the ordering -----

  /**
    Ranked ids first by rank, then the unranked one: with the order list
    `[id3, id1]` the bucket `[id1, id2, id3]` becomes `[id3, id1, id2]`.
   */
  lemma RankOrderExample(x1: Exercise, x2: Exercise, x3: Exercise)
    requires x1.id == "id1" && x2.id == "id2" && x3.id == "id3"
    ensures SortByRank(["id3", "id1"], [x1, x2, x3]) == [x3, x1, x2]
  {
    var key := RankKey(["id3", "id1"]);
    ExampleRanks();
    assert key(x1) == 1 && key(x2) == 2 && key(x3) == 0;
    StableSort.SortPair(x2, x3, key);
    assert [x1, x2, x3][1..] == [x2, x3];
    StableSort.InsertBetween(x1, x3, x2, key);
  }

  lemma ExampleRanks()
    ensures Rank(["id3", "id1"], "id1") == 1
    ensures Rank(["id3", "id1"], "id2") == 2
    ensures Rank(["id3", "id1"], "id3") == 0
  {
    assert ["id3", "id1"][1] == "id1";
    assert "id2" !in ["id3", "id1"];
  }

  /** A repeated id ranks at its last position: with `[id2, id1, id2]`, `id1` (rank 1) precedes `id2` (rank 2). */
  lemma RepeatedIdExample(x1: Exercise, x2: Exercise)
    requires x1.id == "id1" && x2.id == "id2"
    ensures SortByRank(["id2", "id1", "id2"], [x2, x1]) == [x1, x2]
  {
    var ids := ["id2", "id1", "id2"];
    assert Rank(ids, "id1") == 1 && Rank(ids, "id2") == 2;
    StableSort.SortPair(x2, x1, RankKey(ids));
  }

  // ----- Search -----

  /** `exercise.name.toLowerCase().includes(q) || exercise.muscleGroup.toLowerCase().includes(q)`. */
  predicate Matches(q: string, e: Exercise) {
    Text.Contains(Text.Lower(e.name), q) || Text.Contains(Text.Lower(e.muscleGroup), q)
  }

  /** `e => Matches(q, e)` as a function value. */
  function MatchesQuery(q: string): Exercise -> bool {
    (e: Exercise) => Matches(q, e)
  }

  /** `searchExercises(query, customExercises)`: every catalog entry matching the lower-cased query, in catalog order. */
  function Search(query: string, custom: seq<Exercise>): (r: seq<Exercise>)
    ensures Seqs.SubsequenceOf(r, AllExercises(custom))
    ensures forall x :: x in r <==> x in AllExercises(custom) && Matches(Text.Lower(query), x)
    ensures |r| == Seqs.Count(AllExercises(custom), MatchesQuery(Text.Lower(query)))
  {
    Seqs.Filter(AllExercises(custom), MatchesQuery(Text.Lower(query)))
  }

  /** The built-in hits come first, then the custom hits, each in catalog order. */
  lemma SearchBuiltInsFirst(query: string, custom: seq<Exercise>)
    ensures Search(query, custom) ==
              Seqs.Filter(BuiltIns, MatchesQuery(Text.Lower(query))) + Seqs.Filter(custom, MatchesQuery(Text.Lower(query)))
  {
    Seqs.FilterConcat(BuiltIns, custom, MatchesQuery(Text.Lower(query)));
  }

  /** An empty query returns the whole catalog. */
  lemma SearchEmptyQuery(custom: seq<Exercise>)
    ensures Search("", custom) == AllExercises(custom)
  {
    forall x | x in AllExercises(custom)
      ensures Matches("", x)
    {
      Text.ContainsEmpty(Text.Lower(x.name));
    }
    Seqs.FilterAll(AllExercises(custom), MatchesQuery(""));
  }

  /** The query's case does not matter: it is lower-cased before matching. */
  lemma SearchIgnoresQueryCase(query: string, custom: seq<Exercise>)
    ensures Search(Text.Lower(query), custom) == Search(query, custom)
  {
    Text.LowerIdempotent(query);
  }

  /** A name matches whatever its case: "CURL" finds "Cable Curl". */
  lemma SearchExample()
    ensures Matches(Text.Lower("CURL"), Exercise("c1", "Cable Curl", "Arms", Standard))
  {
    var q, n := Text.Lower("CURL"), Text.Lower("Cable Curl");
    LowerQuery();
    LowerName();
    assert n[6..10] == q;
    assert Text.OccursAt(n, q, 6);
  }

  lemma LowerQuery()
    ensures Text.Lower("CURL") == "curl"
  {
  }

  lemma LowerName()
    ensures Text.Lower("Cable Curl") == "cable curl"
  {
  }

  /** A query longer than both fields never matches: "CURL" does not find "Row" in "Back". */
  lemma SearchMissExample()
    ensures !Matches(Text.Lower("CURL"), Exercise("c2", "Row", "Back", Standard))
  {
    var q, g := Text.Lower("CURL"), Text.Lower("Back");
    assert |Text.Lower("Row")| == 3 && |g| == 4 && |q| == 4;
    assert g[0..4][0] == 'b' != 'c' == q[0];
  }
}
