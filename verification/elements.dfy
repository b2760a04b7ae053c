/** The five elements and the fixed clockwise cycle that relates them
    (frontend/src/lib/game-logic.ts). Each element generates the element
    one step clockwise and restricts the element two steps clockwise. */
module Elements {

  datatype Element = Metal | Wood | Water | Fire | Earth

  /** The cycle read clockwise: wood, fire, earth, metal, water, then back
      to wood. */
  const Cycle: seq<Element> := [Wood, Fire, Earth, Metal, Water]

  /** The position of an element on the cycle (`elementCycle.indexOf`);
      every element occurs on it, so the lookup never fails. */
  function CycleIndex(e: Element): (i: nat)
    ensures i < |Cycle| && Cycle[i] == e
  {
    match e
    case Wood => 0
    case Fire => 1
    case Earth => 2
    case Metal => 3
    case Water => 4
  }

  /** The element reached from `e` by walking `steps` places clockwise. */
  function Walk(e: Element, steps: nat): Element
  {
    Cycle[(CycleIndex(e) + steps) % |Cycle|]
  }

  /** `a` generates `b`: `b` is the next element clockwise from `a`. */
  predicate Generation(a: Element, b: Element)
  {
    Walk(a, 1) == b
  }

  /** `a` restricts `b`: `b` is two elements clockwise from `a`. */
  predicate Restriction(a: Element, b: Element)
  {
    Walk(a, 2) == b
  }

  /** The number of clockwise steps from `from` to `to`: the unique
      `d` in [0, 4] whose walk from `from` ends at `to`. */
  function ClockwiseDistance(from: Element, to: Element): (d: nat)
    ensures d < |Cycle|
    ensures Walk(from, d) == to
    ensures d == 0 <==> from == to
  {
    (CycleIndex(to) - CycleIndex(from) + |Cycle|) % |Cycle|
  }

  /** No other number of steps below five reaches `to`, so the contract of
      ClockwiseDistance pins its value down. */
  lemma DistanceUnique(from: Element, to: Element, d: nat)
    requires d < |Cycle| && Walk(from, d) == to
    ensures d == ClockwiseDistance(from, to)
  {
  }

  /** Going round the cycle from a to b and back from b to a is one full
      turn when the elements differ. */
  lemma DistanceComplement(a: Element, b: Element)
    requires a != b
    ensures ClockwiseDistance(a, b) + ClockwiseDistance(b, a) == |Cycle|
  {
  }

  /** The named relations of the cycle, read off the distance in both
      directions: distance 1 and 2 are "a generates b" and "a restricts b",
      and distance 4 and 3 are the same relations with the roles swapped. */
  lemma DistanceRelations(a: Element, b: Element)
    ensures Generation(a, b) <==> ClockwiseDistance(a, b) == 1
    ensures Restriction(a, b) <==> ClockwiseDistance(a, b) == 2
    ensures Generation(b, a) <==> ClockwiseDistance(a, b) == 4
    ensures Restriction(b, a) <==> ClockwiseDistance(a, b) == 3
  {
    if Generation(a, b) { DistanceUnique(a, b, 1); }
    if Restriction(a, b) { DistanceUnique(a, b, 2); }
    if Generation(b, a) { DistanceUnique(b, a, 1); DistanceComplement(a, b); }
    if Restriction(b, a) { DistanceUnique(b, a, 2); DistanceComplement(a, b); }
    var d := ClockwiseDistance(a, b);
    if d == 4 || d == 3 {
      DistanceComplement(a, b);
    }
  }

  /** The three values the relationship classifier reports. */
  datatype Relationship = Generates | Restricts | Neutral

  /** The classifier's answer: a relationship and its display text. */
  datatype RelationshipInfo = RelationshipInfo(relationship: Relationship, description: string)

  /** The element's own tag, the string literal the code uses for it. */
  function Tag(e: Element): string
  {
    match e
    case Metal => "metal"
    case Wood => "wood"
    case Water => "water"
    case Fire => "fire"
    case Earth => "earth"
  }

  /** Display names used in the descriptions (`elementNameMap`): the tag
      with its first letter capitalised. */
  function DisplayName(e: Element): (r: string)
    ensures |r| == |Tag(e)| > 0
    ensures r[0] as int == Tag(e)[0] as int - 32
    ensures r[1..] == Tag(e)[1..]
  {
    match e
    case Metal => "Metal"
    case Wood => "Wood"
    case Water => "Water"
    case Fire => "Fire"
    case Earth => "Earth"
  }

  /** The descriptive classifier (`getElementRelationship`): it names the
      relation from `from`'s side, so it reports "generates" when `from`
      feeds `to` and "restricts" when `from` weakens `to`. */
  function GetElementRelationship(from: Element, to: Element): (r: RelationshipInfo)
    ensures r.relationship == Generates <==> Generation(from, to)
    ensures r.relationship == Restricts <==> Restriction(from, to)
    ensures r.relationship == Neutral <==> !Generation(from, to) && !Restriction(from, to)
    ensures r.relationship == Generates ==>
              r.description == DisplayName(from) + " generates " + DisplayName(to) + ", effect doubled"
    ensures r.relationship == Restricts ==>
              r.description == DisplayName(from) + " restricts " + DisplayName(to) + ", effect halved"
    ensures r.relationship == Neutral ==> r.description == "No special relationship"
  {
    DistanceRelations(from, to);
    var distance := ClockwiseDistance(from, to);
    if distance == 1 then
      RelationshipInfo(Generates, DisplayName(from) + " generates " + DisplayName(to) + ", effect doubled")
    else if distance == 2 then
      RelationshipInfo(Restricts, DisplayName(from) + " restricts " + DisplayName(to) + ", effect halved")
    else
      RelationshipInfo(Neutral, "No special relationship")
  }
}
