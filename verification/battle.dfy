/** Round resolution of the five-element game (frontend/src/lib/game-logic.ts):
    each card's effective points against the other card, and the round
    outcome they decide. */
module Battle {
  import opened Elements

  /** A card. The rules read the field `point`; a card's id is an opaque
      string assigned when the card is dealt. */
  datatype Card = Card(id: string, element: Element, point: int)

  datatype Outcome = Win | Lose | Draw

  /** `determineWinner`'s answer: the outcome from the player's side and
      both effective scores. */
  datatype BattleResult = BattleResult(result: Outcome, playerEffectivePoints: int, opponentEffectivePoints: int)

  function Max(a: int, b: int): int
  {
    if a >= b then a else b
  }

  /** `Math.ceil(q / 5)`: the least integer c with q <= 5 * c. Dafny's
      division by a positive constant rounds down, so the ceiling is the
      negated quotient of the negation. */
  function CeilFifth(q: int): (c: int)
    ensures 5 * (c - 1) < q <= 5 * c
  {
    -((-q) / 5)
  }

  /** The amount a supporting opponent adds or a restricting opponent
      subtracts: `Math.ceil(q / 5) * 4`. */
  function Bonus(q: int): (b: int)
    ensures b % 4 == 0
    ensures q >= 0 ==> b == (q + 4) / 5 * 4 && b >= 0
    ensures 4 * q <= 5 * b < 4 * q + 20
  {
    CeilFifth(q) * 4
  }

  /** The score of `card` against `opponentCard` (`calculateEffectivePoints`).
      The card is strengthened when the opponent's element generates the
      card's element (clockwise distance 4 from the card), weakened down to
      zero at most when the opponent's element restricts it (distance 3),
      adds both point values against its own element, and otherwise keeps
      its points. */
  function EffectivePoints(card: Card, opponentCard: Card): (r: int)
    ensures Generation(opponentCard.element, card.element) ==> r == card.point + Bonus(opponentCard.point)
    ensures Restriction(opponentCard.element, card.element) ==> r == Max(card.point - Bonus(opponentCard.point), 0)
    ensures card.element == opponentCard.element ==> r == card.point + opponentCard.point
    ensures (!Generation(opponentCard.element, card.element) && !Restriction(opponentCard.element, card.element)
             && card.element != opponentCard.element) ==> r == card.point
    ensures card.point >= 0 && opponentCard.point >= 0 ==> r >= 0
  {
    DistanceRelations(card.element, opponentCard.element);
    var distance := ClockwiseDistance(card.element, opponentCard.element);
    if distance == 4 then
      card.point + Bonus(opponentCard.point)
    else if distance == 3 then
      Max(card.point - Bonus(opponentCard.point), 0)
    else if distance == 0 then
      card.point + opponentCard.point
    else
      card.point
  }

  /** `determineWinner`: both cards are scored against each other, and the
      higher effective score wins the round for its side. */
  function DetermineWinner(playerCard: Card, opponentCard: Card): (r: BattleResult)
    ensures r.playerEffectivePoints == EffectivePoints(playerCard, opponentCard)
    ensures r.opponentEffectivePoints == EffectivePoints(opponentCard, playerCard)
    ensures r.result == Win <==> r.playerEffectivePoints > r.opponentEffectivePoints
    ensures r.result == Lose <==> r.playerEffectivePoints < r.opponentEffectivePoints
    ensures r.result == Draw <==> r.playerEffectivePoints == r.opponentEffectivePoints
  {
    var playerEffectivePoints := EffectivePoints(playerCard, opponentCard);
    var opponentEffectivePoints := EffectivePoints(opponentCard, playerCard);
    if playerEffectivePoints > opponentEffectivePoints then
      BattleResult(Win, playerEffectivePoints, opponentEffectivePoints)
    else if playerEffectivePoints < opponentEffectivePoints then
      BattleResult(Lose, playerEffectivePoints, opponentEffectivePoints)
    else
      BattleResult(Draw, playerEffectivePoints, opponentEffectivePoints)
  }

  /** The outcome seen from the other side of the table. */
  function Flip(o: Outcome): Outcome
  {
    match o
    case Win => Lose
    case Lose => Win
    case Draw => Draw
  }

  /** Exchanging the two cards exchanges the scores and turns a win into a
      loss and back; a draw stays a draw. */
  lemma SwapFlipsOutcome(a: Card, b: Card)
    ensures DetermineWinner(b, a) ==
            BattleResult(Flip(DetermineWinner(a, b).result),
                         DetermineWinner(a, b).opponentEffectivePoints,
                         DetermineWinner(a, b).playerEffectivePoints)
  {
  }

  /** Two cards of the same element both score the sum of their points, so
      the round is always drawn. */
  lemma SameElementDraws(a: Card, b: Card)
    requires a.element == b.element
    ensures DetermineWinner(a, b) == BattleResult(Draw, a.point + b.point, a.point + b.point)
  {
  }

  /** The card whose element generates the other card's element gets
      nothing from it, while the generated card gains the bonus: the
      descriptive "generates" of the classifier names the side that does
      NOT profit in scoring. */
  lemma GeneratorGivesBonus(a: Card, b: Card)
    requires GetElementRelationship(a.element, b.element).relationship == Generates
    ensures EffectivePoints(a, b) == a.point
    ensures EffectivePoints(b, a) == b.point + Bonus(a.point)
  {
    DistanceRelations(a.element, b.element);
  }

  /** The restricted card loses the bonus (down to zero at most), while the
      restricting card keeps its points. */
  lemma RestrictorSuppresses(a: Card, b: Card)
    requires GetElementRelationship(a.element, b.element).relationship == Restricts
    ensures EffectivePoints(a, b) == a.point
    ensures EffectivePoints(b, a) == Max(b.point - Bonus(a.point), 0)
  {
    DistanceRelations(a.element, b.element);
  }

  /** Wood(1) against fire(1): wood generates fire, so fire scores
      1 + ceil(1/5) * 4 = 5 against wood's 1, and wood loses. */
  lemma WoodAgainstFire(wood: Card, fire: Card)
    requires wood.element == Wood && wood.point == 1
    requires fire.element == Fire && fire.point == 1
    ensures ClockwiseDistance(Wood, Fire) == 1 && ClockwiseDistance(Fire, Wood) == 4
    ensures DetermineWinner(wood, fire) == BattleResult(Lose, 1, 5)
  {
  }
}
