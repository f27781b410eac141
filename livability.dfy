/** The livability score of `check_living_function_updated`: a table of independent rules,
    one per transit category, each adding a point when its category has a positive count. */
module Livability {

  import Amenity

  /** The categories of the rule table, in the order the source checks them. */
  const TransitCategories: seq<string> := [Amenity.MrtStation, Amenity.TraStation, Amenity.HsrStation]

  /** The point one rule contributes. */
  function Points(counts: map<string, int>, category: string): nat {
    if Amenity.CountOf(counts, category) > 0 then 1 else 0
  }

  /** The score of a rule table: the sum of the points of its rules. */
  function TableScore(counts: map<string, int>, categories: seq<string>): (score: nat)
    ensures score <= |categories|
  {
    if categories == [] then 0
    else TableScore(counts, categories[..|categories| - 1]) + Points(counts, categories[|categories| - 1])
  }

  /** `check_living_function_updated(counts)`, returning the score rather than the text
      that spells it. */
  method CheckLivingFunction(counts: map<string, int>) returns (score: int)
    ensures score == TableScore(counts, TransitCategories)
    ensures 0 <= score <= 3
  {
    score := 0;
    if Amenity.CountOf(counts, Amenity.MrtStation) > 0 {
      score := score + 1;
    }
    if Amenity.CountOf(counts, Amenity.TraStation) > 0 {
      score := score + 1;
    }
    if Amenity.CountOf(counts, Amenity.HsrStation) > 0 {
      score := score + 1;
    }
    TransitScore(counts);
  }

  /** The transit table unrolled: one point per rule, in the source's order. */
  lemma TransitScore(counts: map<string, int>)
    ensures TableScore(counts, TransitCategories)
      == Points(counts, Amenity.MrtStation) + Points(counts, Amenity.TraStation) + Points(counts, Amenity.HsrStation)
  {
    var m, t, h := Amenity.MrtStation, Amenity.TraStation, Amenity.HsrStation;
    assert TransitCategories == [m, t, h];
    assert [m, t, h][..2] == [m, t] && [m, t][..1] == [m] && [m][..0] == [];
    assert TableScore(counts, [m]) == Points(counts, m);
    assert TableScore(counts, [m, t]) == Points(counts, m) + Points(counts, t);
  }

  /** The categories whose rule fires. */
  function Firing(counts: map<string, int>, categories: seq<string>): set<string> {
    set c | c in categories && Amenity.CountOf(counts, c) > 0
  }

  /** With each category in the table once, the score is the number of categories whose
      count is positive, and so at most the size of the table. */
  lemma {:induction false} ScoreCounts(counts: map<string, int>, categories: seq<string>)
    requires forall i, j | 0 <= i < j < |categories| :: categories[i] != categories[j]
    ensures TableScore(counts, categories) == |Firing(counts, categories)|
    ensures TableScore(counts, categories) <= |categories|
  {
    if categories != [] {
      var init := categories[..|categories| - 1];
      var last := categories[|categories| - 1];
      ScoreCounts(counts, init);
      assert last !in init by {
        forall i | 0 <= i < |init| ensures init[i] != last {
          assert init[i] == categories[i];
        }
      }
      assert categories == init + [last];
      if Amenity.CountOf(counts, last) > 0 {
        assert Firing(counts, categories) == Firing(counts, init) + {last};
      } else {
        assert Firing(counts, categories) == Firing(counts, init);
      }
    }
  }

  /** Each rule looks only at its own category: counts that agree on the table's
      categories give the same score, whatever the other categories hold. */
  lemma {:induction false} ScoreIgnoresOtherCategories(c1: map<string, int>, c2: map<string, int>, categories: seq<string>)
    requires forall c | c in categories :: Amenity.CountOf(c1, c) == Amenity.CountOf(c2, c)
    ensures TableScore(c1, categories) == TableScore(c2, categories)
  {
    if categories != [] {
      var init := categories[..|categories| - 1];
      assert forall c | c in init :: c in categories;
      ScoreIgnoresOtherCategories(c1, c2, init);
    }
  }

  /** Adding or changing the count of a category outside the transit rules leaves the
      score unchanged. */
  lemma OtherCategoryIrrelevant(counts: map<string, int>, category: string, n: int)
    requires category !in TransitCategories
    ensures TableScore(counts[category := n], TransitCategories) == TableScore(counts, TransitCategories)
  {
    ScoreIgnoresOtherCategories(counts[category := n], counts, TransitCategories);
  }

  /** Rules are independent: changing one category's count moves the score by exactly the
      change in that rule's own point. */
  lemma {:induction false} RulesIndependent(counts: map<string, int>, categories: seq<string>, category: string, n: int)
    requires forall i, j | 0 <= i < j < |categories| :: categories[i] != categories[j]
    requires category in categories
    ensures TableScore(counts[category := n], categories)
      == TableScore(counts, categories) - Points(counts, category) + Points(counts[category := n], category)
  {
    var init := categories[..|categories| - 1];
    var last := categories[|categories| - 1];
    assert forall i, j | 0 <= i < j < |init| :: init[i] != init[j] by {
      assert forall i | 0 <= i < |init| :: init[i] == categories[i];
    }
    assert categories == init + [last];
    if last == category {
      assert category !in init by {
        forall i | 0 <= i < |init| ensures init[i] != last {
          assert init[i] == categories[i];
        }
      }
      ScoreIgnoresOtherCategories(counts[category := n], counts, init);
    } else {
      assert category in init;
      RulesIndependent(counts, init, category, n);
    }
  }

  /** Two MRT stations and no railway or high-speed rail station score 1. */
  lemma ScoreExample()
    ensures TableScore(map[Amenity.MrtStation := 2, Amenity.TraStation := 0, Amenity.HsrStation := 0], TransitCategories) == 1
  {
    var counts := map[Amenity.MrtStation := 2, Amenity.TraStation := 0, Amenity.HsrStation := 0];
    TransitScore(counts);
  }

  /** A missing category counts as 0: an empty count scores 0. */
  lemma EmptyCountsScoreZero()
    ensures TableScore(map[], TransitCategories) == 0
  {
    TransitScore(map[]);
  }

  /** The score of a neighbourhood is the number of transit categories that at least one
      of its elements is classified to. */
  lemma ScoreOfElements(elements: seq<Amenity.Element>, counts: map<string, int>)
    requires forall l :: Amenity.CountOf(counts, l) == Amenity.ClassifiedCount(elements, l)
    ensures TableScore(counts, TransitCategories)
      == |set c | c in TransitCategories && Amenity.Present(elements, c)|
  {
    ScoreCounts(counts, TransitCategories);
    forall c | c in TransitCategories
      ensures Amenity.CountOf(counts, c) > 0 <==> Amenity.Present(elements, c)
    {
      Amenity.ClassifiedCountPositive(elements, c);
    }
    assert Firing(counts, TransitCategories) == set c | c in TransitCategories && Amenity.Present(elements, c);
  }
}
