/** The listing filter of `filter_houses`: an optional radius around a centre, then the
    price, age and size conditions, then the excluded and required labels, each stage a
    list comprehension over what the previous one kept, and finally the first ten of what
    is left. The listing collection and the distance function are parameters. */
module ListingFilter {

  import opened Wrappers
  import Condition

  /** One listing, with the fields the filter reads. `labels` is None when the record has
      no `label` entry. */
  datatype Listing = Listing(
    name: string,
    latitude: real,
    longitude: real,
    price: real,
    age: real,
    size: real,
    labels: Option<seq<string>>)

  /** The distance in kilometres from (lat1, lon1) to (lat2, lon2); the source's haversine. */
  type Distance = (real, real, real, real) -> real

  /** The criteria object. An absent key and a JSON null are both None (or `Absent`). */
  datatype Criteria = Criteria(
    location: Option<(real, real)>,
    distance: Option<real>,
    price: Condition.ConditionArg,
    age: Condition.ConditionArg,
    size: Condition.ConditionArg,
    labelsToExclude: Option<seq<string>>,
    labelsToInclude: Option<seq<string>>)

  /** The largest number of listings a search returns. */
  const ResultCap: nat := 10

  /** `set(h.get('label', []))`: a listing without labels has the empty label set. */
  function LabelSet(h: Listing): set<string> {
    match h.labels
    case None => {}
    case Some(labels) => AsSet(labels)
  }

  /** One filter stage of the pipeline. */
  datatype Stage =
    | Near(lat: real, lon: real, radius: real)
    | PriceIs(cond: Condition.ConditionArg)
    | AgeIs(cond: Condition.ConditionArg)
    | SizeIs(cond: Condition.ConditionArg)
    | Exclude(excluded: set<string>)
    | Include(required: set<string>)

  /** The predicate a stage keeps a listing by. */
  predicate Keeps(st: Stage, dist: Distance, h: Listing) {
    match st
    case Near(lat, lon, radius) => dist(lat, lon, h.latitude, h.longitude) <= radius
    case PriceIs(cond) => Condition.EvaluateCondition(h.price, cond)
    case AgeIs(cond) => Condition.EvaluateCondition(h.age, cond)
    case SizeIs(cond) => Condition.EvaluateCondition(h.size, cond)
    case Exclude(excluded) => excluded * LabelSet(h) == {}
    case Include(required) => required <= LabelSet(h)
  }

  predicate KeepsAll(stages: seq<Stage>, dist: Distance, h: Listing) {
    forall st | st in stages :: Keeps(st, dist, h)
  }

  // ---------------------------------------------------------------------------------------
  // Subsequences and truncation
  // ---------------------------------------------------------------------------------------

  /** `a` is `b` with some elements left out, the rest in their original order. */
  predicate IsSubsequence<T(==)>(a: seq<T>, b: seq<T>)
    decreases |b|
  {
    a == [] || (b != [] && ((a[0] == b[0] && IsSubsequence(a[1..], b[1..])) || IsSubsequence(a, b[1..])))
  }

  lemma {:induction false} PrefixIsSubsequence<T>(a: seq<T>, b: seq<T>, k: nat)
    requires IsSubsequence(a, b) && k <= |a|
    ensures IsSubsequence(a[..k], b)
    decreases |b|
  {
    if k == 0 || a == [] {
    } else if a[0] == b[0] && IsSubsequence(a[1..], b[1..]) {
      PrefixIsSubsequence(a[1..], b[1..], k - 1);
      assert a[..k][1..] == a[1..][..k - 1];
    } else {
      PrefixIsSubsequence(a, b[1..], k);
    }
  }

  /** `xs[:n]` */
  function Take<T>(xs: seq<T>, n: nat): (r: seq<T>)
    ensures |r| == if |xs| <= n then |xs| else n
    ensures r == xs[..|r|]
    ensures |xs| <= n ==> r == xs
  {
    if |xs| <= n then xs else xs[..n]
  }

  // ---------------------------------------------------------------------------------------
  // One stage, and all stages at once
  // ---------------------------------------------------------------------------------------

  /** `[h for h in xs if Keeps(st, h)]` */
  function Filter(xs: seq<Listing>, st: Stage, dist: Distance): (r: seq<Listing>)
    ensures |r| <= |xs|
    ensures IsSubsequence(r, xs)
    ensures forall h | h in r :: Keeps(st, dist, h)
    ensures forall h | h in xs && Keeps(st, dist, h) :: h in r
  {
    if xs == [] then []
    else if Keeps(st, dist, xs[0]) then [xs[0]] + Filter(xs[1..], st, dist)
    else Filter(xs[1..], st, dist)
  }

  /** The listings of `xs` that every stage keeps, in their original order: the reference
      the staged pipeline is measured against. */
  function Select(xs: seq<Listing>, stages: seq<Stage>, dist: Distance): (r: seq<Listing>)
    ensures |r| <= |xs|
    ensures IsSubsequence(r, xs)
    ensures forall h | h in r :: KeepsAll(stages, dist, h)
    ensures forall h | h in xs && KeepsAll(stages, dist, h) :: h in r
  {
    if xs == [] then []
    else if KeepsAll(stages, dist, xs[0]) then [xs[0]] + Select(xs[1..], stages, dist)
    else Select(xs[1..], stages, dist)
  }

  /** A stage every listing of `xs` passes returns `xs` unchanged. */
  lemma {:induction false} FilterAllPass(xs: seq<Listing>, st: Stage, dist: Distance)
    requires forall h | h in xs :: Keeps(st, dist, h)
    ensures Filter(xs, st, dist) == xs
  {
    if xs != [] {
      assert xs[0] in xs;
      FilterAllPass(xs[1..], st, dist);
    }
  }

  /** Stages every listing of `xs` passes select all of `xs`. */
  lemma {:induction false} SelectAllPass(xs: seq<Listing>, stages: seq<Stage>, dist: Distance)
    requires forall h | h in xs :: KeepsAll(stages, dist, h)
    ensures Select(xs, stages, dist) == xs
  {
    if xs != [] {
      assert xs[0] in xs;
      SelectAllPass(xs[1..], stages, dist);
    }
  }

  /** A stage keeps every copy of a listing it keeps and no copy of one it drops. */
  lemma FilterMultiplicity(xs: seq<Listing>, st: Stage, dist: Distance, h: Listing)
    ensures multiset(Filter(xs, st, dist))[h] == if Keeps(st, dist, h) then multiset(xs)[h] else 0
  {
    SingleStage(xs, st, dist);
    SelectMultiplicity(xs, [st], dist, h);
    KeepsAllSingle(st, dist, h);
  }

  /** The selection keeps every copy of a listing all stages keep and no copy of any other. */
  lemma {:induction false} SelectMultiplicity(xs: seq<Listing>, stages: seq<Stage>, dist: Distance, h: Listing)
    ensures multiset(Select(xs, stages, dist))[h] == if KeepsAll(stages, dist, h) then multiset(xs)[h] else 0
  {
    if xs != [] {
      SelectMultiplicity(xs[1..], stages, dist, h);
      assert xs == [xs[0]] + xs[1..];
      assert multiset(xs) == multiset([xs[0]]) + multiset(xs[1..]);
      if KeepsAll(stages, dist, xs[0]) {
        var r := Select(xs, stages, dist);
        assert r == [xs[0]] + Select(xs[1..], stages, dist);
        assert multiset(r) == multiset([xs[0]]) + multiset(Select(xs[1..], stages, dist));
      }
    }
  }

  /** Filtering what a set of stages selected by one more stage selects by all of them. */
  lemma {:induction false} FilterSelect(xs: seq<Listing>, stages: seq<Stage>, st: Stage, dist: Distance)
    ensures Filter(Select(xs, stages, dist), st, dist) == Select(xs, stages + [st], dist)
  {
    if xs != [] {
      FilterSelect(xs[1..], stages, st, dist);
      assert KeepsAll(stages + [st], dist, xs[0]) <==> KeepsAll(stages, dist, xs[0]) && Keeps(st, dist, xs[0]);
    }
  }

  lemma {:induction false} SelectNoStages(xs: seq<Listing>, dist: Distance)
    ensures Select(xs, [], dist) == xs
  {
    if xs != [] {
      SelectNoStages(xs[1..], dist);
    }
  }

  /** Only which stages are present matters, not their order or repetition. */
  lemma {:induction false} SelectSameStages(xs: seq<Listing>, s1: seq<Stage>, s2: seq<Stage>, dist: Distance)
    requires forall st :: st in s1 <==> st in s2
    ensures Select(xs, s1, dist) == Select(xs, s2, dist)
  {
    if xs != [] {
      SelectSameStages(xs[1..], s1, s2, dist);
      assert KeepsAll(s1, dist, xs[0]) == KeepsAll(s2, dist, xs[0]);
    }
  }

  // ---------------------------------------------------------------------------------------
  // The pipeline
  // ---------------------------------------------------------------------------------------

  /** `criteria.get('location') and criteria.get('distance')`: a radius of 0 is falsy. */
  predicate GeoActive(c: Criteria) {
    c.location.Some? && c.distance.Some? && c.distance.value != 0.0
  }

  /** A label list is truthy when it is present and non-empty. */
  predicate LabelsActive(labels: Option<seq<string>>) {
    labels.Some? && labels.value != []
  }

  function AsSet(labels: seq<string>): set<string> {
    set l | l in labels
  }

  /** A one-stage list when `on` holds, no stage otherwise. */
  function When(on: bool, st: Stage): seq<Stage> {
    if on then [st] else []
  }

  /** The radius stage, present when a centre and a non-zero radius are both given. */
  function GeoStages(c: Criteria): seq<Stage> {
    if GeoActive(c) then [Near(c.location.value.0, c.location.value.1, c.distance.value)] else []
  }

  function ExcludeStages(labels: Option<seq<string>>): seq<Stage> {
    if LabelsActive(labels) then [Exclude(AsSet(labels.value))] else []
  }

  function IncludeStages(labels: Option<seq<string>>): seq<Stage> {
    if LabelsActive(labels) then [Include(AsSet(labels.value))] else []
  }

  /** The stages the criteria switch on, in the order the source applies them. */
  function ActiveStages(c: Criteria): seq<Stage> {
    GeoStages(c)
    + When(Condition.IsTruthy(c.price), PriceIs(c.price))
    + When(Condition.IsTruthy(c.age), AgeIs(c.age))
    + When(Condition.IsTruthy(c.size), SizeIs(c.size))
    + ExcludeStages(c.labelsToExclude)
    + IncludeStages(c.labelsToInclude)
  }

  /** The body of `filter_houses` before the cap: `filtered` rebound by each stage in turn. */
  function RunStages(xs: seq<Listing>, stages: seq<Stage>, dist: Distance): seq<Listing>
    decreases |stages|
  {
    if stages == [] then xs else RunStages(Filter(xs, stages[0], dist), stages[1..], dist)
  }

  /** Running stages one after another over what earlier stages selected selects by all
      of them at once. */
  lemma {:induction false} RunStagesSelect(xs: seq<Listing>, done: seq<Stage>, stages: seq<Stage>, dist: Distance)
    ensures RunStages(Select(xs, done, dist), stages, dist) == Select(xs, done + stages, dist)
    decreases |stages|
  {
    if stages == [] {
      assert done + stages == done;
    } else {
      FilterSelect(xs, done, stages[0], dist);
      RunStagesSelect(xs, done + [stages[0]], stages[1..], dist);
      assert done + [stages[0]] + stages[1..] == done + stages;
    }
  }

  /** The staged pipeline keeps exactly the listings that every stage keeps, in their
      original order. */
  lemma PipelineSelects(xs: seq<Listing>, stages: seq<Stage>, dist: Distance)
    ensures RunStages(xs, stages, dist) == Select(xs, stages, dist)
  {
    SelectNoStages(xs, dist);
    RunStagesSelect(xs, [], stages, dist);
    assert [] + stages == stages;
  }

  /** `filter_houses(criteria)` over the listing collection `houseData`: at most ten
      listings, in their original order, each kept by every active stage; precisely the
      first ten listings that every active stage keeps. */
  function FilterHouses(houseData: seq<Listing>, c: Criteria, dist: Distance): (r: seq<Listing>)
    ensures |r| <= ResultCap
    ensures IsSubsequence(r, houseData)
    ensures forall h | h in r :: KeepsAll(ActiveStages(c), dist, h)
    ensures r == Take(Select(houseData, ActiveStages(c), dist), ResultCap)
  {
    if houseData == [] then []
    else
      PipelineSelects(houseData, ActiveStages(c), dist);
      var selected := Select(houseData, ActiveStages(c), dist);
      PrefixIsSubsequence(selected, houseData, |Take(selected, ResultCap)|);
      Take(RunStages(houseData, ActiveStages(c), dist), ResultCap)
  }

  // ---------------------------------------------------------------------------------------
  // What a search result means, stated on the criteria themselves
  // ---------------------------------------------------------------------------------------

  /** A listing meets the criteria: within the radius when a centre and a non-zero radius
      are given, each numeric condition admits its field, no excluded label and every
      required label is on the listing. */
  predicate MeetsCriteria(c: Criteria, dist: Distance, h: Listing) {
    && (GeoActive(c) ==> dist(c.location.value.0, c.location.value.1, h.latitude, h.longitude) <= c.distance.value)
    && Condition.EvaluateCondition(h.price, c.price)
    && Condition.EvaluateCondition(h.age, c.age)
    && Condition.EvaluateCondition(h.size, c.size)
    && (c.labelsToExclude.Some? ==> forall l | l in c.labelsToExclude.value :: l !in LabelSet(h))
    && (c.labelsToInclude.Some? ==> forall l | l in c.labelsToInclude.value :: l in LabelSet(h))
  }

  lemma KeepsAllConcat(s1: seq<Stage>, s2: seq<Stage>, dist: Distance, h: Listing)
    ensures KeepsAll(s1 + s2, dist, h) <==> KeepsAll(s1, dist, h) && KeepsAll(s2, dist, h)
  {
    assert forall st :: st in s1 + s2 <==> st in s1 || st in s2;
  }

  lemma KeepsAllSingle(st: Stage, dist: Distance, h: Listing)
    ensures KeepsAll([st], dist, h) <==> Keeps(st, dist, h)
  {
    assert st in [st];
  }

  lemma WhenMeaning(on: bool, st: Stage, dist: Distance, h: Listing)
    ensures KeepsAll(When(on, st), dist, h) <==> (on ==> Keeps(st, dist, h))
  {
    KeepsAllSingle(st, dist, h);
  }

  lemma GeoMeaning(c: Criteria, dist: Distance, h: Listing)
    ensures KeepsAll(GeoStages(c), dist, h)
      <==> (GeoActive(c) ==> dist(c.location.value.0, c.location.value.1, h.latitude, h.longitude) <= c.distance.value)
  {
    if GeoActive(c) {
      KeepsAllSingle(Near(c.location.value.0, c.location.value.1, c.distance.value), dist, h);
    }
  }

  /** A condition stage the criteria leave off would have admitted the field anyway. */
  lemma ConditionStageMeaning(value: real, arg: Condition.ConditionArg)
    ensures (Condition.IsTruthy(arg) ==> Condition.EvaluateCondition(value, arg)) <==> Condition.EvaluateCondition(value, arg)
  {
    if !Condition.IsTruthy(arg) {
      Condition.FalsyAcceptsAll(value, arg);
    }
  }

  lemma ExcludeMeaning(labels: Option<seq<string>>, dist: Distance, h: Listing)
    ensures KeepsAll(ExcludeStages(labels), dist, h) <==> (labels.Some? ==> forall l | l in labels.value :: l !in LabelSet(h))
  {
    if LabelsActive(labels) {
      var e := AsSet(labels.value);
      KeepsAllSingle(Exclude(e), dist, h);
      if e * LabelSet(h) == {} {
        forall l | l in labels.value ensures l !in LabelSet(h) {
          assert l in e;
          assert l !in e * LabelSet(h);
        }
      } else {
        var l :| l in e * LabelSet(h);
        assert l in labels.value;
      }
    }
  }

  lemma IncludeMeaning(labels: Option<seq<string>>, dist: Distance, h: Listing)
    ensures KeepsAll(IncludeStages(labels), dist, h) <==> (labels.Some? ==> forall l | l in labels.value :: l in LabelSet(h))
  {
    if LabelsActive(labels) {
      var i := AsSet(labels.value);
      KeepsAllSingle(Include(i), dist, h);
      if i <= LabelSet(h) {
        forall l | l in labels.value ensures l in LabelSet(h) {
          assert l in i;
        }
      }
    }
  }

  /** The active stages keep a listing exactly when it meets the criteria: a stage the
      criteria leave off would have kept everything anyway. */
  lemma ActiveStagesMeaning(c: Criteria, dist: Distance, h: Listing)
    ensures KeepsAll(ActiveStages(c), dist, h) <==> MeetsCriteria(c, dist, h)
  {
    var g := GeoStages(c);
    var p := When(Condition.IsTruthy(c.price), PriceIs(c.price));
    var a := When(Condition.IsTruthy(c.age), AgeIs(c.age));
    var z := When(Condition.IsTruthy(c.size), SizeIs(c.size));
    var e := ExcludeStages(c.labelsToExclude);
    var i := IncludeStages(c.labelsToInclude);
    KeepsAllConcat(g + p + a + z + e, i, dist, h);
    KeepsAllConcat(g + p + a + z, e, dist, h);
    KeepsAllConcat(g + p + a, z, dist, h);
    KeepsAllConcat(g + p, a, dist, h);
    KeepsAllConcat(g, p, dist, h);
    GeoMeaning(c, dist, h);
    WhenMeaning(Condition.IsTruthy(c.price), PriceIs(c.price), dist, h);
    WhenMeaning(Condition.IsTruthy(c.age), AgeIs(c.age), dist, h);
    WhenMeaning(Condition.IsTruthy(c.size), SizeIs(c.size), dist, h);
    ConditionStageMeaning(h.price, c.price);
    ConditionStageMeaning(h.age, c.age);
    ConditionStageMeaning(h.size, c.size);
    ExcludeMeaning(c.labelsToExclude, dist, h);
    IncludeMeaning(c.labelsToInclude, dist, h);
  }

  lemma SubsequenceMember<T>(a: seq<T>, b: seq<T>, x: T)
    requires IsSubsequence(a, b) && x in a
    ensures x in b
    decreases |b|
  {
    if a[0] == b[0] && IsSubsequence(a[1..], b[1..]) {
      if x != a[0] {
        SubsequenceMember(a[1..], b[1..], x);
      }
    } else {
      SubsequenceMember(a, b[1..], x);
    }
  }

  /** Every listing returned is one of the listings searched and meets the criteria. */
  lemma ResultMeetsCriteria(houseData: seq<Listing>, c: Criteria, dist: Distance, h: Listing)
    requires h in FilterHouses(houseData, c, dist)
    ensures h in houseData
    ensures MeetsCriteria(c, dist, h)
  {
    SubsequenceMember(FilterHouses(houseData, c, dist), houseData, h);
    ActiveStagesMeaning(c, dist, h);
  }

  /** Only the cap drops a listing that meets the criteria: while fewer than ten listings
      are returned, every listing that meets them is among them. */
  lemma CompleteBelowCap(houseData: seq<Listing>, c: Criteria, dist: Distance, h: Listing)
    requires h in houseData && MeetsCriteria(c, dist, h)
    requires |FilterHouses(houseData, c, dist)| < ResultCap
    ensures h in FilterHouses(houseData, c, dist)
  {
    ActiveStagesMeaning(c, dist, h);
  }

  /** The criteria switch no stage on. */
  predicate NoCriteria(c: Criteria) {
    && !GeoActive(c)
    && !Condition.IsTruthy(c.price) && !Condition.IsTruthy(c.age) && !Condition.IsTruthy(c.size)
    && !LabelsActive(c.labelsToExclude) && !LabelsActive(c.labelsToInclude)
  }

  /** With no criteria the search returns the first ten listings. */
  lemma NoCriteriaFirstTen(houseData: seq<Listing>, c: Criteria, dist: Distance)
    requires NoCriteria(c)
    ensures FilterHouses(houseData, c, dist) == Take(houseData, ResultCap)
  {
    assert ActiveStages(c) == [];
    SelectNoStages(houseData, dist);
  }

  /** Stages other than the radius do not look at the distance function. */
  lemma {:induction false} SelectIgnoresDistance(xs: seq<Listing>, stages: seq<Stage>, d1: Distance, d2: Distance)
    requires forall st | st in stages :: !st.Near?
    ensures Select(xs, stages, d1) == Select(xs, stages, d2)
  {
    if xs != [] {
      SelectIgnoresDistance(xs[1..], stages, d1, d2);
      assert KeepsAll(stages, d1, xs[0]) == KeepsAll(stages, d2, xs[0]);
    }
  }

  /** Without a centre, or without a radius, or with a radius of 0, no distance is
      computed: the result is the same whatever the distance function. */
  lemma DistanceUnused(houseData: seq<Listing>, c: Criteria, d1: Distance, d2: Distance)
    requires c.location.None? || c.distance.None? || c.distance == Some(0.0)
    ensures FilterHouses(houseData, c, d1) == FilterHouses(houseData, c, d2)
  {
    SelectIgnoresDistance(houseData, ActiveStages(c), d1, d2);
  }

  // ---------------------------------------------------------------------------------------
  // Stages are independent of one another
  // ---------------------------------------------------------------------------------------

  lemma SingleStage(xs: seq<Listing>, st: Stage, dist: Distance)
    ensures Filter(xs, st, dist) == Select(xs, [st], dist)
  {
    SelectNoStages(xs, dist);
    FilterSelect(xs, [], st, dist);
    assert [] + [st] == [st];
  }

  /** Two stages applied in either order keep the same listings in the same order. */
  lemma FilterCommute(xs: seq<Listing>, s1: Stage, s2: Stage, dist: Distance)
    ensures Filter(Filter(xs, s1, dist), s2, dist) == Filter(Filter(xs, s2, dist), s1, dist)
  {
    SingleStage(xs, s1, dist);
    SingleStage(xs, s2, dist);
    FilterSelect(xs, [s1], s2, dist);
    FilterSelect(xs, [s2], s1, dist);
    SelectSameStages(xs, [s1] + [s2], [s2] + [s1], dist);
  }

  /** Applying a stage a second time changes nothing. */
  lemma FilterIdempotent(xs: seq<Listing>, st: Stage, dist: Distance)
    ensures Filter(Filter(xs, st, dist), st, dist) == Filter(xs, st, dist)
  {
    SingleStage(xs, st, dist);
    FilterSelect(xs, [st], st, dist);
    SelectSameStages(xs, [st] + [st], [st], dist);
  }

  /** Running the same stages in any order, repeated or not, gives the same listings. */
  lemma StageOrderIrrelevant(xs: seq<Listing>, s1: seq<Stage>, s2: seq<Stage>, dist: Distance)
    requires forall st :: st in s1 <==> st in s2
    ensures RunStages(xs, s1, dist) == RunStages(xs, s2, dist)
  {
    PipelineSelects(xs, s1, dist);
    PipelineSelects(xs, s2, dist);
    SelectSameStages(xs, s1, s2, dist);
  }

  // ---------------------------------------------------------------------------------------
  // Examples
  // ---------------------------------------------------------------------------------------

  /** An excluded label on a listing removes it; a listing without it stays. */
  lemma ExcludeExample(dist: Distance)
    ensures !Keeps(Exclude({"temple"}), dist, Listing("T", 0.0, 0.0, 0.0, 0.0, 0.0, Some(["temple", "park"])))
    ensures Keeps(Exclude({"temple"}), dist, Listing("P", 0.0, 0.0, 0.0, 0.0, 0.0, Some(["park"])))
  {
    var t := Listing("T", 0.0, 0.0, 0.0, 0.0, 0.0, Some(["temple", "park"]));
    assert "temple" in {"temple"} * LabelSet(t);
    var p := Listing("P", 0.0, 0.0, 0.0, 0.0, 0.0, Some(["park"]));
    assert LabelSet(p) == {"park"};
  }

  /** Every required label must be on the listing; having only some of them is not enough. */
  lemma IncludeExample(dist: Distance)
    ensures Keeps(Include({"hospital", "MRT station"}), dist, Listing("B", 0.0, 0.0, 0.0, 0.0, 0.0, Some(["MRT station", "hospital", "park"])))
    ensures !Keeps(Include({"hospital", "MRT station"}), dist, Listing("H", 0.0, 0.0, 0.0, 0.0, 0.0, Some(["hospital"])))
  {
    var b := Listing("B", 0.0, 0.0, 0.0, 0.0, 0.0, Some(["MRT station", "hospital", "park"]));
    assert "hospital" in LabelSet(b) && "MRT station" in LabelSet(b);
    var h := Listing("H", 0.0, 0.0, 0.0, 0.0, 0.0, Some(["hospital"]));
    assert LabelSet(h) == {"hospital"};
  }

  /** "price<=25000000" admits a price of 20000000 and rejects one of 30000000. */
  lemma PriceCapExample()
    ensures Condition.EvaluateCondition(20000000.0, Condition.Str("price<=25000000"))
    ensures !Condition.EvaluateCondition(30000000.0, Condition.Str("price<=25000000"))
  {
    PriceCapDigits();
    Condition.ParseWhole("25000000");
    assert Condition.PatternParts("price", "", Condition.OpText(Condition.Le), "", "25000000", "");
    assert Condition.Assemble("price", "", Condition.OpText(Condition.Le), "", "25000000", "") == "price<=25000000";
    Condition.ComparisonApplies(20000000.0, "price", "", Condition.Le, "", "25000000", "");
    Condition.ComparisonApplies(30000000.0, "price", "", Condition.Le, "", "25000000", "");
  }

  lemma PriceCapDigits()
    ensures Condition.AllIn("25000000", Condition.Digit)
    ensures Condition.DigitsValue("25000000") == 25000000
  {
    assert Condition.DigitsValue("25") == 25;
    assert Condition.DigitsValue("250") == 250;
    assert "2500"[..3] == "250";
    assert Condition.DigitsValue("2500") == 2500;
    assert "25000"[..4] == "2500";
    assert Condition.DigitsValue("25000") == 25000;
    assert "250000"[..5] == "25000";
    assert Condition.DigitsValue("250000") == 250000;
    assert "2500000"[..6] == "250000";
    assert Condition.DigitsValue("2500000") == 2500000;
    assert "25000000"[..7] == "2500000";
    assert Condition.DigitsValue("25000000") == 25000000;
  }

  /** The search of the example below. */
  function ExampleSearch(): Criteria {
    Criteria(Some((25.0, 121.5)), Some(50.0), Condition.Str("price<=25000000"), Condition.Absent, Condition.Absent,
             Some(["temple"]), None)
  }

  lemma ExampleKeepsFirst(dist: Distance)
    requires dist(25.0, 121.5, 25.0, 121.5) <= 50.0
    ensures KeepsAll(ActiveStages(ExampleSearch()), dist, Listing("A", 25.0, 121.5, 20000000.0, 5.0, 30.0, Some([])))
  {
    var a := Listing("A", 25.0, 121.5, 20000000.0, 5.0, 30.0, Some([]));
    PriceCapExample();
    assert LabelSet(a) == {};
    ActiveStagesMeaning(ExampleSearch(), dist, a);
  }

  lemma ExampleDropsSecond(dist: Distance)
    ensures !KeepsAll(ActiveStages(ExampleSearch()), dist, Listing("B", 26.0, 122.5, 30000000.0, 20.0, 50.0, Some(["temple"])))
  {
    var b := Listing("B", 26.0, 122.5, 30000000.0, 20.0, 50.0, Some(["temple"]));
    var st := Exclude(AsSet(["temple"]));
    assert st in ActiveStages(ExampleSearch());
    assert "temple" in AsSet(["temple"]) * LabelSet(b);
  }

  lemma SelectFirstOfTwo(a: Listing, b: Listing, stages: seq<Stage>, dist: Distance)
    requires KeepsAll(stages, dist, a) && !KeepsAll(stages, dist, b)
    ensures Select([a, b], stages, dist) == [a]
  {
    assert [a, b][1..] == [b];
    assert [b][1..] == [];
  }

  /** Two listings near Taipei: the first within the radius, under the price cap and
      without the excluded label is the only one returned; the second is over the price
      cap and carries the excluded label. */
  lemma SearchExample(dist: Distance)
    requires dist(25.0, 121.5, 25.0, 121.5) <= 50.0
    ensures FilterHouses(
      [Listing("A", 25.0, 121.5, 20000000.0, 5.0, 30.0, Some([])),
       Listing("B", 26.0, 122.5, 30000000.0, 20.0, 50.0, Some(["temple"]))],
      ExampleSearch(), dist)
      == [Listing("A", 25.0, 121.5, 20000000.0, 5.0, 30.0, Some([]))]
  {
    var a := Listing("A", 25.0, 121.5, 20000000.0, 5.0, 30.0, Some([]));
    var b := Listing("B", 26.0, 122.5, 30000000.0, 20.0, 50.0, Some(["temple"]));
    ExampleKeepsFirst(dist);
    ExampleDropsSecond(dist);
    SelectFirstOfTwo(a, b, ActiveStages(ExampleSearch()), dist);
  }
}
