/** Classifying the points of interest around a location and counting them by category:
    the loop of `find_nearby_amenities_with_counts` after the response has been read.
    Each element's tags either name a railway network or operator (MRT, Taiwan Railway,
    high-speed rail, tried in that order) or give a general category through the first
    non-empty of `amenity`, `shop`, `leisure`, `highway`; the labels are then counted. */
module Amenity {

  import opened Wrappers
  import opened Text

  /** An element's tag dictionary. */
  type Tags = map<string, string>

  /** One element of the response; `tags` is None when the element has no "tags" entry. */
  datatype Element = Element(tags: Option<Tags>)

  /** `element.get("tags", {})` */
  function TagsOf(e: Element): Tags {
    match e.tags
    case None => map[]
    case Some(tags) => tags
  }

  /** `tags.get(key, "")`; also the truthiness of `tags.get(key)`, since a missing tag and
      an empty one are both falsy. */
  function Get(tags: Tags, key: string): string {
    if key in tags then tags[key] else ""
  }

  const MrtStation: string := "mrt_station"
  const TraStation: string := "tra_station"
  const HsrStation: string := "hsr_station"

  // ---------------------------------------------------------------------------------------
  // The classification rule table
  // ---------------------------------------------------------------------------------------

  /** A transit rule: when one of its markers occurs in the network or the operator name,
      the element is a station of the rule's category. */
  datatype TransitRule = TransitRule(markers: seq<string>, category: string)

  /** The transit rules in the order they are tried. */
  const TransitRules: seq<TransitRule> := [
    TransitRule(["捷運"], MrtStation),
    TransitRule(["臺灣鐵路", "台鐵"], TraStation),
    TransitRule(["台灣高速鐵路", "高鐵"], HsrStation)
  ]

  /** The general tag keys in the order they are tried. */
  const GeneralKeys: seq<string> := ["amenity", "shop", "leisure", "highway"]

  predicate Fires(rule: TransitRule, network: string, operator: string) {
    exists m | m in rule.markers :: Contains(network, m) || Contains(operator, m)
  }

  /** The category of the first rule that fires, if any. */
  function FirstTransit(rules: seq<TransitRule>, network: string, operator: string): Option<string> {
    if rules == [] then None
    else if Fires(rules[0], network, operator) then Some(rules[0].category)
    else FirstTransit(rules[1..], network, operator)
  }

  /** The rules are tried in order and the first that fires decides; none firing gives no
      category. */
  lemma {:induction false} FirstTransitFirstMatch(rules: seq<TransitRule>, network: string, operator: string)
    ensures var r := FirstTransit(rules, network, operator);
      && (r.None? <==> forall i | 0 <= i < |rules| :: !Fires(rules[i], network, operator))
      && (r.Some? ==> exists i | 0 <= i < |rules| ::
            && rules[i].category == r.value
            && Fires(rules[i], network, operator)
            && forall j | 0 <= j < i :: !Fires(rules[j], network, operator))
  {
    if rules != [] && !Fires(rules[0], network, operator) {
      FirstTransitFirstMatch(rules[1..], network, operator);
      assert forall i | 1 <= i < |rules| :: rules[i] == rules[1..][i - 1];
      var r := FirstTransit(rules, network, operator);
      if r.Some? {
        var k :| 0 <= k < |rules[1..]| && rules[1..][k].category == r.value && Fires(rules[1..][k], network, operator)
          && forall j | 0 <= j < k :: !Fires(rules[1..][j], network, operator);
        assert rules[k + 1] == rules[1..][k];
      }
    }
  }

  /** `tags.get(k1) or tags.get(k2) or ...`, with "" for none. */
  function FirstNonEmpty(tags: Tags, keys: seq<string>): string {
    if keys == [] then ""
    else if Get(tags, keys[0]) != "" then Get(tags, keys[0])
    else FirstNonEmpty(tags, keys[1..])
  }

  /** The first key with a non-empty value gives the value; "" when there is none. */
  lemma {:induction false} FirstNonEmptyFirstMatch(tags: Tags, keys: seq<string>)
    ensures var v := FirstNonEmpty(tags, keys);
      && (v == "" <==> forall i | 0 <= i < |keys| :: Get(tags, keys[i]) == "")
      && (v != "" ==> exists i | 0 <= i < |keys| ::
            && Get(tags, keys[i]) == v
            && forall j | 0 <= j < i :: Get(tags, keys[j]) == "")
  {
    if keys != [] && Get(tags, keys[0]) == "" {
      FirstNonEmptyFirstMatch(tags, keys[1..]);
      assert forall i | 1 <= i < |keys| :: keys[i] == keys[1..][i - 1];
      var v := FirstNonEmpty(tags, keys);
      if v != "" {
        var k :| 0 <= k < |keys[1..]| && Get(tags, keys[1..][k]) == v
          && forall j | 0 <= j < k :: Get(tags, keys[1..][j]) == "";
        assert keys[k + 1] == keys[1..][k];
      }
    }
  }

  /** The category of one element: the first transit rule that fires, else the first
      non-empty general tag, else none. */
  function Classify(tags: Tags): Option<string> {
    match FirstTransit(TransitRules, Get(tags, "network"), Get(tags, "operator"))
    case Some(category) => Some(category)
    case None =>
      var v := FirstNonEmpty(tags, GeneralKeys);
      if v == "" then None else Some(v)
  }

  /** The labels one element contributes: none or one. */
  function LabelsOf(e: Element): (r: seq<string>)
    ensures |r| <= 1
  {
    match Classify(TagsOf(e))
    case None => []
    case Some(l) => [l]
  }

  /** The labels of the elements, in order. */
  function FoundTags(es: seq<Element>): (r: seq<string>)
    ensures |r| <= |es|
  {
    if es == [] then [] else FoundTags(es[..|es| - 1]) + LabelsOf(es[|es| - 1])
  }

  /** The number of elements classified to `category`. */
  function ClassifiedCount(es: seq<Element>, category: string): nat {
    if es == [] then 0
    else ClassifiedCount(es[..|es| - 1], category) + (if Classify(TagsOf(es[|es| - 1])) == Some(category) then 1 else 0)
  }

  // ---------------------------------------------------------------------------------------
  // The loop
  // ---------------------------------------------------------------------------------------

  /** The `all_found_tags` loop: the source's if/elif chain over network and operator with
      its `is_station` flag, then the `or` chain over the general tags. It builds the same
      labels as the rule table. */
  method CollectFoundTags(elements: seq<Element>) returns (found: seq<string>)
    ensures found == FoundTags(elements)
  {
    found := [];
    var i := 0;
    while i < |elements|
      invariant 0 <= i <= |elements|
      invariant found == FoundTags(elements[..i])
    {
      var tags := TagsOf(elements[i]);
      var network := Get(tags, "network");
      var operator := Get(tags, "operator");
      var isStation := false;
      if Contains(network, "捷運") || Contains(operator, "捷運") {
        found := found + [MrtStation];
        isStation := true;
      } else if Contains(network, "臺灣鐵路") || Contains(network, "台鐵") || Contains(operator, "臺灣鐵路") || Contains(operator, "台鐵") {
        found := found + [TraStation];
        isStation := true;
      } else if Contains(operator, "台灣高速鐵路") || Contains(operator, "高鐵") || Contains(network, "台灣高速鐵路") || Contains(network, "高鐵") {
        found := found + [HsrStation];
        isStation := true;
      }
      if !isStation {
        var tagValue := Get(tags, "amenity");
        if tagValue == "" { tagValue := Get(tags, "shop"); }
        if tagValue == "" { tagValue := Get(tags, "leisure"); }
        if tagValue == "" { tagValue := Get(tags, "highway"); }
        if tagValue != "" {
          found := found + [tagValue];
        }
      }
      ClassifyChain(tags);
      assert elements[..i + 1][..i] == elements[..i];
      i := i + 1;
    }
    assert elements[..i] == elements;
  }

  /** The rule table read as the source's if/elif chain. */
  lemma ClassifyChain(tags: Tags)
    ensures var network := Get(tags, "network");
            var operator := Get(tags, "operator");
      Classify(tags) ==
        if Contains(network, "捷運") || Contains(operator, "捷運") then Some(MrtStation)
        else if Contains(network, "臺灣鐵路") || Contains(network, "台鐵") || Contains(operator, "臺灣鐵路") || Contains(operator, "台鐵") then Some(TraStation)
        else if Contains(operator, "台灣高速鐵路") || Contains(operator, "高鐵") || Contains(network, "台灣高速鐵路") || Contains(network, "高鐵") then Some(HsrStation)
        else if Get(tags, "amenity") != "" then Some(Get(tags, "amenity"))
        else if Get(tags, "shop") != "" then Some(Get(tags, "shop"))
        else if Get(tags, "leisure") != "" then Some(Get(tags, "leisure"))
        else if Get(tags, "highway") != "" then Some(Get(tags, "highway"))
        else None
  {
    TransitChain(Get(tags, "network"), Get(tags, "operator"));
    GeneralChain(tags);
  }

  lemma TransitChain(network: string, operator: string)
    ensures FirstTransit(TransitRules, network, operator) ==
      if Contains(network, "捷運") || Contains(operator, "捷運") then Some(MrtStation)
      else if Contains(network, "臺灣鐵路") || Contains(network, "台鐵") || Contains(operator, "臺灣鐵路") || Contains(operator, "台鐵") then Some(TraStation)
      else if Contains(operator, "台灣高速鐵路") || Contains(operator, "高鐵") || Contains(network, "台灣高速鐵路") || Contains(network, "高鐵") then Some(HsrStation)
      else None
  {
    var mrt := TransitRule(["捷運"], MrtStation);
    var tra := TransitRule(["臺灣鐵路", "台鐵"], TraStation);
    var hsr := TransitRule(["台灣高速鐵路", "高鐵"], HsrStation);
    FiresOne(mrt, "捷運", network, operator);
    FiresTwo(tra, "臺灣鐵路", "台鐵", network, operator);
    FiresTwo(hsr, "台灣高速鐵路", "高鐵", network, operator);
    assert TransitRules == [mrt, tra, hsr];
    assert [mrt, tra, hsr][1..] == [tra, hsr] && [tra, hsr][1..] == [hsr] && [hsr][1..] == [];
    assert FirstTransit([hsr], network, operator) == if Fires(hsr, network, operator) then Some(HsrStation) else None;
    assert FirstTransit([tra, hsr], network, operator)
      == if Fires(tra, network, operator) then Some(TraStation) else FirstTransit([hsr], network, operator);
  }

  lemma FiresOne(rule: TransitRule, m: string, network: string, operator: string)
    requires rule.markers == [m]
    ensures Fires(rule, network, operator) <==> Contains(network, m) || Contains(operator, m)
  {
    assert m in rule.markers;
  }

  lemma FiresTwo(rule: TransitRule, m1: string, m2: string, network: string, operator: string)
    requires rule.markers == [m1, m2]
    ensures Fires(rule, network, operator)
      <==> Contains(network, m1) || Contains(network, m2) || Contains(operator, m1) || Contains(operator, m2)
  {
    assert m1 in rule.markers && m2 in rule.markers;
  }

  lemma GeneralChain(tags: Tags)
    ensures FirstNonEmpty(tags, GeneralKeys) ==
      if Get(tags, "amenity") != "" then Get(tags, "amenity")
      else if Get(tags, "shop") != "" then Get(tags, "shop")
      else if Get(tags, "leisure") != "" then Get(tags, "leisure")
      else Get(tags, "highway")
  {
    assert GeneralKeys[1..] == ["shop", "leisure", "highway"];
    assert ["shop", "leisure", "highway"][1..] == ["leisure", "highway"];
    assert ["leisure", "highway"][1..] == ["highway"];
    assert ["highway"][1..] == [];
    assert FirstNonEmpty(tags, ["highway"]) == Get(tags, "highway");
    assert FirstNonEmpty(tags, ["leisure", "highway"])
      == if Get(tags, "leisure") != "" then Get(tags, "leisure") else FirstNonEmpty(tags, ["highway"]);
    assert FirstNonEmpty(tags, ["shop", "leisure", "highway"])
      == if Get(tags, "shop") != "" then Get(tags, "shop") else FirstNonEmpty(tags, ["leisure", "highway"]);
  }

  /** `Counter(all_found_tags)`: one key per distinct label, its value the number of times
      the label occurs. */
  method CountLabels(labels: seq<string>) returns (counts: map<string, int>)
    ensures counts.Keys == set l | l in labels
    ensures forall l :: CountOf(counts, l) == multiset(labels)[l]
    ensures forall l | l in counts :: counts[l] > 0
  {
    counts := map[];
    var i := 0;
    while i < |labels|
      invariant 0 <= i <= |labels|
      invariant counts.Keys == set l | l in labels[..i]
      invariant forall l :: CountOf(counts, l) == multiset(labels[..i])[l]
    {
      counts := counts[labels[i] := CountOf(counts, labels[i]) + 1];
      assert labels[..i + 1] == labels[..i] + [labels[i]];
      i := i + 1;
    }
    assert labels[..i] == labels;
    forall l | l in counts
      ensures counts[l] > 0
    {
      assert CountOf(counts, l) == multiset(labels)[l];
    }
  }

  /** `counts.get(key, 0)` */
  function CountOf(counts: map<string, int>, key: string): int {
    if key in counts then counts[key] else 0
  }

  /** The classification loop and the count that ends it: each label's count is the number
      of elements classified to it, and only labels some element received are keys. */
  method FindNearbyAmenityCounts(elements: seq<Element>) returns (counts: map<string, int>)
    ensures forall l :: CountOf(counts, l) == ClassifiedCount(elements, l)
    ensures forall l | l in counts :: counts[l] > 0
  {
    var found := CollectFoundTags(elements);
    counts := CountLabels(found);
    forall l
      ensures CountOf(counts, l) == ClassifiedCount(elements, l)
    {
      FoundTagsCount(elements, l);
    }
  }

  // ---------------------------------------------------------------------------------------
  // Properties
  // ---------------------------------------------------------------------------------------

  /** A label occurs among the found tags as often as elements are classified to it. */
  lemma {:induction false} FoundTagsCount(es: seq<Element>, category: string)
    ensures multiset(FoundTags(es))[category] == ClassifiedCount(es, category)
  {
    if es != [] {
      FoundTagsCount(es[..|es| - 1], category);
    }
  }

  /** Some element is classified to `category`. */
  predicate Present(es: seq<Element>, category: string) {
    exists i | 0 <= i < |es| :: Classify(TagsOf(es[i])) == Some(category)
  }

  /** A category has a positive count exactly when some element is classified to it. */
  lemma {:induction false} ClassifiedCountPositive(es: seq<Element>, category: string)
    ensures ClassifiedCount(es, category) > 0 <==> Present(es, category)
  {
    if es != [] {
      var init := es[..|es| - 1];
      ClassifiedCountPositive(init, category);
      if ClassifiedCount(es, category) > 0 {
        if ClassifiedCount(init, category) > 0 {
          var i :| 0 <= i < |init| && Classify(TagsOf(init[i])) == Some(category);
          assert init[i] == es[i];
        } else {
          assert Classify(TagsOf(es[|es| - 1])) == Some(category);
        }
      } else {
        forall i | 0 <= i < |es|
          ensures Classify(TagsOf(es[i])) != Some(category)
        {
          if i < |init| {
            assert init[i] == es[i];
          }
        }
      }
    }
  }

  /** MRT wins over every other rule and tag. */
  lemma MrtFirst(tags: Tags)
    requires Contains(Get(tags, "network"), "捷運") || Contains(Get(tags, "operator"), "捷運")
    ensures Classify(tags) == Some(MrtStation)
  {
    ClassifyChain(tags);
  }

  /** Taiwan Railway wins over high-speed rail and the general tags. */
  lemma TraSecond(tags: Tags, marker: string)
    requires !Contains(Get(tags, "network"), "捷運") && !Contains(Get(tags, "operator"), "捷運")
    requires marker == "臺灣鐵路" || marker == "台鐵"
    requires Contains(Get(tags, "network"), marker) || Contains(Get(tags, "operator"), marker)
    ensures Classify(tags) == Some(TraStation)
  {
    ClassifyChain(tags);
  }

  /** High-speed rail wins over the general tags. */
  lemma HsrThird(tags: Tags, marker: string)
    requires !Contains(Get(tags, "network"), "捷運") && !Contains(Get(tags, "operator"), "捷運")
    requires !Contains(Get(tags, "network"), "臺灣鐵路") && !Contains(Get(tags, "operator"), "臺灣鐵路")
    requires !Contains(Get(tags, "network"), "台鐵") && !Contains(Get(tags, "operator"), "台鐵")
    requires marker == "台灣高速鐵路" || marker == "高鐵"
    requires Contains(Get(tags, "network"), marker) || Contains(Get(tags, "operator"), marker)
    ensures Classify(tags) == Some(HsrStation)
  {
    ClassifyChain(tags);
  }

  lemma NotInEmpty(marker: string)
    requires marker != ""
    ensures !Contains("", marker)
  {
  }

  /** Without a network or operator tag no transit rule fires: the element is classified
      by its general tags alone, the first non-empty one in key order, or dropped. */
  lemma NoRailwayNames(tags: Tags)
    requires "network" !in tags && "operator" !in tags
    ensures Classify(tags) == if FirstNonEmpty(tags, GeneralKeys) == "" then None else Some(FirstNonEmpty(tags, GeneralKeys))
  {
    FirstTransitFirstMatch(TransitRules, "", "");
    forall i | 0 <= i < |TransitRules|
      ensures !Fires(TransitRules[i], "", "")
    {
      forall m | m in TransitRules[i].markers
        ensures !Contains("", m)
      {
        NotInEmpty(m);
      }
    }
  }

  /** A station of Taipei's MRT network. */
  lemma MrtExample()
    ensures Classify(map["network" := "台北捷運", "railway" := "station"]) == Some(MrtStation)
  {
    var tags := map["network" := "台北捷運", "railway" := "station"];
    assert Get(tags, "network") == "台北" + "捷運";
    assert Contains("台北捷運"[1..], "捷運") by {
      assert "台北捷運"[1..][1..] == "捷運";
    }
    MrtFirst(tags);
  }

  /** A bank is classified by its amenity tag; an element without tags is dropped. */
  lemma GeneralExamples()
    ensures Classify(map["amenity" := "bank"]) == Some("bank")
    ensures Classify(map[]) == None
  {
    NoRailwayNames(map["amenity" := "bank"]);
    NoRailwayNames(map[]);
  }
}
