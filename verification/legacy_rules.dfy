/** The earlier rock-paper-scissors rules (src/lib/game-logic.ts). The
    source compares whole cards to value literals; the model states the
    rules over the card value, which is what those comparisons mean. */
module LegacyRules {
  import opened Common
  import opened Battle

  datatype CardValue = Rock | Paper | Scissors

  /** Position on the rock, paper, scissors cycle. */
  function Rank(v: CardValue): nat
  {
    match v
    case Rock => 0
    case Paper => 1
    case Scissors => 2
  }

  /** Reference rule: a value beats the one just before it on the cycle
      rock, paper, scissors, rock. */
  predicate Beats(a: CardValue, b: CardValue)
  {
    (Rank(a) - Rank(b) + 3) % 3 == 1
  }

  /** `determineWinner`: equal values draw; rock beats scissors, paper beats
      rock, scissors beats paper; every other pair loses. */
  function DetermineWinner(playerCard: CardValue, opponentCard: CardValue): (r: Outcome)
    ensures r == Draw <==> playerCard == opponentCard
    ensures r == Win <==> Beats(playerCard, opponentCard)
    ensures r == Lose <==> Beats(opponentCard, playerCard)
  {
    if playerCard == opponentCard then
      Draw
    else if (playerCard == Rock && opponentCard == Scissors)
         || (playerCard == Paper && opponentCard == Rock)
         || (playerCard == Scissors && opponentCard == Paper) then
      Win
    else
      Lose
  }

  /** Between different values exactly one side wins. */
  lemma WinMirrorsLose(a: CardValue, b: CardValue)
    requires a != b
    ensures DetermineWinner(a, b) == Win <==> DetermineWinner(b, a) == Lose
    ensures DetermineWinner(a, b) != Draw
  {
  }

  /** `getInitialDeck`: nine cards, three rocks, three papers, three
      scissors, in that order. */
  function InitialDeck(): (deck: seq<CardValue>)
    ensures |deck| == 9
    ensures forall k | 0 <= k < 9 :: deck[k] == [Rock, Paper, Scissors][k / 3]
    ensures multiset(deck)[Rock] == 3 && multiset(deck)[Paper] == 3 && multiset(deck)[Scissors] == 3
  {
    [Rock, Rock, Rock, Paper, Paper, Paper, Scissors, Scissors, Scissors]
  }

  /** `indexOf` for values, with `None` for -1. */
  function IndexOf(deck: seq<CardValue>, v: CardValue): (r: Option<nat>)
    ensures r.None? <==> v !in deck
    ensures r.Some? ==> r.value < |deck| && deck[r.value] == v && v !in deck[..r.value]
  {
    if deck == [] then None
    else if deck[0] == v then Some(0)
    else
      match IndexOf(deck[1..], v)
      case None => None
      case Some(i) =>
        assert deck[..i + 1] == [deck[0]] + deck[1..][..i];
        Some(i + 1)
  }

  /** `transferCard`: the first card with value `v` leaves `fromDeck` and
      `v` is appended to `toDeck`; if `fromDeck` has no such card both decks
      come back unchanged. Either way no card is created or lost. */
  function TransferCard(fromDeck: seq<CardValue>, toDeck: seq<CardValue>, v: CardValue): (r: DeckPair<CardValue>)
    ensures v !in fromDeck ==> r == DeckPair(fromDeck, toDeck)
    ensures v in fromDeck ==>
              && multiset(r.updatedFromDeck) == multiset(fromDeck) - multiset{v}
              && r.updatedToDeck == toDeck + [v]
              && exists i | 0 <= i < |fromDeck| ::
                   v !in fromDeck[..i] && fromDeck[i] == v && r.updatedFromDeck == fromDeck[..i] + fromDeck[i + 1..]
    ensures |r.updatedFromDeck| + |r.updatedToDeck| == |fromDeck| + |toDeck|
    ensures multiset(r.updatedFromDeck) + multiset(r.updatedToDeck) == multiset(fromDeck) + multiset(toDeck)
  {
    match IndexOf(fromDeck, v)
    case None => DeckPair(fromDeck, toDeck)
    case Some(cardIndex) => DeckPair(RemoveAt(fromDeck, cardIndex), toDeck + [v])
  }
}
