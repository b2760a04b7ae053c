/** The round state machine of the rock-paper-scissors page
    (src/app/game/page.tsx). It has the same phases as the five-element
    page, but settlement moves a card by value, credits nothing, and always
    starts the next round; the game only switches itself off when a deck
    was already empty before the settlement. */
module LegacyRound {
  import opened Common
  import opened Battle
  import opened LegacyRules

  datatype Phase = Selection | Reveal | Result

  datatype LogEntry = LogEntry(round: int, playerCard: CardValue, opponentCard: CardValue, result: Outcome)

  datatype GameState = GameState(
    playerDeck: seq<CardValue>,
    opponentDeck: seq<CardValue>,
    playerSelectedCard: Option<CardValue>,
    opponentSelectedCard: Option<CardValue>,
    gameResult: Option<Outcome>,
    roundNumber: int,
    gameLog: seq<LogEntry>,
    gamePhase: Phase,
    isGameActive: bool)

  function TotalCards(s: GameState): nat
  {
    |s.playerDeck| + |s.opponentDeck|
  }

  /** `startNewGame`, and also the page's initial state. */
  function StartNewGame(): (s: GameState)
    ensures s.playerDeck == s.opponentDeck && |s.playerDeck| == 9
    ensures multiset(s.playerDeck)[Rock] == 3 && multiset(s.playerDeck)[Paper] == 3
    ensures multiset(s.playerDeck)[Scissors] == 3
    ensures s.roundNumber == 1 && s.gameLog == [] && s.gamePhase == Selection && s.isGameActive
    ensures s.playerSelectedCard.None? && s.opponentSelectedCard.None? && s.gameResult.None?
  {
    GameState(LegacyRules.InitialDeck(), LegacyRules.InitialDeck(), None, None, None, 1, [], Selection, true)
  }

  /** `handleCardSelect`: taken only in the selection phase with no card
      chosen yet. It does not look at whether the game is active. */
  function SelectCard(s: GameState, card: CardValue): (t: GameState)
    ensures t.playerSelectedCard == Some(card) || t == s
    ensures t != s <==> s.gamePhase == Selection && s.playerSelectedCard.None?
    ensures t.(playerSelectedCard := s.playerSelectedCard) == s
  {
    if s.gamePhase == Selection && s.playerSelectedCard.None? then
      s.(playerSelectedCard := Some(card))
    else
      s
  }

  /** The opponent's timer: active game, selection phase, player has
      chosen; the card at index `i` is taken and the round moves to reveal.
      An empty opponent deck yields no card. */
  function OpponentPick(s: GameState, i: nat): (t: GameState)
    requires s.opponentDeck != [] ==> i < |s.opponentDeck|
    ensures var fires := s.isGameActive && s.gamePhase == Selection && s.playerSelectedCard.Some?;
            && (!fires ==> t == s)
            && (fires ==> t.gamePhase == Reveal)
            && (fires && s.opponentDeck != [] ==> t.opponentSelectedCard == Some(s.opponentDeck[i]))
            && (fires && s.opponentDeck == [] ==> t.opponentSelectedCard.None?)
    ensures t.(opponentSelectedCard := s.opponentSelectedCard, gamePhase := s.gamePhase) == s
  {
    if s.isGameActive && s.gamePhase == Selection && s.playerSelectedCard.Some? then
      var availableCards := s.opponentDeck;
      s.(opponentSelectedCard := if i < |availableCards| then Some(availableCards[i]) else None,
         gamePhase := Reveal)
    else
      s
  }

  /** The reveal timer: one log entry with the round, both cards and the
      outcome, then the result phase. */
  function Resolve(s: GameState): (t: GameState)
    ensures !(s.gamePhase == Reveal && s.playerSelectedCard.Some? && s.opponentSelectedCard.Some?) ==> t == s
    ensures s.gamePhase == Reveal && s.playerSelectedCard.Some? && s.opponentSelectedCard.Some? ==>
              var p := s.playerSelectedCard.value;
              var o := s.opponentSelectedCard.value;
              && t.gamePhase == Result
              && t.gameResult == Some(LegacyRules.DetermineWinner(p, o))
              && |t.gameLog| == |s.gameLog| + 1
              && t.gameLog[..|s.gameLog|] == s.gameLog
              && t.gameLog[|s.gameLog|] == LogEntry(s.roundNumber, p, o, LegacyRules.DetermineWinner(p, o))
    ensures t.(gameResult := s.gameResult, gameLog := s.gameLog, gamePhase := s.gamePhase) == s
  {
    if s.gamePhase == Reveal && s.playerSelectedCard.Some? && s.opponentSelectedCard.Some? then
      var p := s.playerSelectedCard.value;
      var o := s.opponentSelectedCard.value;
      var result := LegacyRules.DetermineWinner(p, o);
      s.(gameResult := Some(result),
         gameLog := s.gameLog + [LogEntry(s.roundNumber, p, o, result)],
         gamePhase := Result)
    else
      s
  }

  predicate SettleReady(s: GameState)
  {
    s.gamePhase == Result && s.playerSelectedCard.Some? && s.opponentSelectedCard.Some? && s.gameResult.Some?
  }

  /** The decks after the outcome is applied, as (player deck, opponent
      deck): a win moves the opponent's card to the player, a loss the
      player's card to the opponent, a draw nothing. */
  function SettledDecks(s: GameState, p: CardValue, o: CardValue, result: Outcome)
    : (d: (seq<CardValue>, seq<CardValue>))
    ensures result == Win ==> TransferCard(s.opponentDeck, s.playerDeck, o) == DeckPair(d.1, d.0)
    ensures result == Lose ==> TransferCard(s.playerDeck, s.opponentDeck, p) == DeckPair(d.0, d.1)
    ensures result == Draw ==> d == (s.playerDeck, s.opponentDeck)
    ensures |d.0| + |d.1| == TotalCards(s)
    ensures multiset(d.0) + multiset(d.1) == multiset(s.playerDeck) + multiset(s.opponentDeck)
  {
    match result
    case Win =>
      var x := TransferCard(s.opponentDeck, s.playerDeck, o);
      (x.updatedToDeck, x.updatedFromDeck)
    case Lose =>
      var x := TransferCard(s.playerDeck, s.opponentDeck, p);
      (x.updatedFromDeck, x.updatedToDeck)
    case Draw => (s.playerDeck, s.opponentDeck)
  }

  /** The settlement timer: the decks are settled, then the next round
      always starts; separately, if a deck was empty BEFORE the settlement,
      the game is switched off. */
  function Settle(s: GameState): (t: GameState)
    ensures !SettleReady(s) ==> t == s
    ensures SettleReady(s) ==>
              && (t.playerDeck, t.opponentDeck)
                 == SettledDecks(s, s.playerSelectedCard.value, s.opponentSelectedCard.value, s.gameResult.value)
              && t.roundNumber == s.roundNumber + 1
              && t.gamePhase == Selection
              && t.playerSelectedCard.None? && t.opponentSelectedCard.None? && t.gameResult.None?
              && t.gameLog == s.gameLog
              && (t.isGameActive <==> s.isGameActive && s.playerDeck != [] && s.opponentDeck != [])
    ensures TotalCards(t) == TotalCards(s)
    ensures multiset(t.playerDeck) + multiset(t.opponentDeck) == multiset(s.playerDeck) + multiset(s.opponentDeck)
  {
    if SettleReady(s) then
      var decks := SettledDecks(s, s.playerSelectedCard.value, s.opponentSelectedCard.value, s.gameResult.value);
      var next := s.(playerDeck := decks.0,
                     opponentDeck := decks.1,
                     roundNumber := s.roundNumber + 1,
                     playerSelectedCard := None,
                     opponentSelectedCard := None,
                     gameResult := None,
                     gamePhase := Selection);
      if |s.playerDeck| == 0 || |s.opponentDeck| == 0 then next.(isGameActive := false) else next
    else
      s
  }

  datatype Event =
    | Choose(card: CardValue)
    | OpponentChoose(index: nat)
    | RevealTimer
    | SettleTimer
    | Restart

  /** The deck view offers only the player's own cards, and the random
      index lies inside a non-empty opponent deck. */
  predicate Allowed(s: GameState, e: Event)
  {
    match e
    case Choose(card) => card in s.playerDeck
    case OpponentChoose(i) => s.opponentDeck != [] ==> i < |s.opponentDeck|
    case RevealTimer => true
    case SettleTimer => true
    case Restart => true
  }

  function Apply(s: GameState, e: Event): GameState
    requires Allowed(s, e)
  {
    match e
    case Choose(card) => SelectCard(s, card)
    case OpponentChoose(i) => OpponentPick(s, i)
    case RevealTimer => Resolve(s)
    case SettleTimer => Settle(s)
    case Restart => StartNewGame()
  }

  /** What holds in every reachable state: eighteen cards in play, in
      total still nine of each value, the log numbered by round, the chosen
      cards still in their decks, and an active game. */
  predicate Invariant(s: GameState)
  {
    && multiset(s.playerDeck) + multiset(s.opponentDeck)
       == multiset(LegacyRules.InitialDeck()) + multiset(LegacyRules.InitialDeck())
    && s.isGameActive
    && (forall k | 0 <= k < |s.gameLog| :: s.gameLog[k].round == k + 1)
    && (s.playerSelectedCard.Some? ==> s.playerSelectedCard.value in s.playerDeck)
    && (s.opponentSelectedCard.Some? ==> s.opponentSelectedCard.value in s.opponentDeck)
    && match s.gamePhase
       case Selection =>
         && |s.gameLog| == s.roundNumber - 1
         && s.opponentSelectedCard.None? && s.gameResult.None?
       case Reveal =>
         && |s.gameLog| == s.roundNumber - 1
         && s.playerSelectedCard.Some? && s.gameResult.None?
       case Result =>
         && |s.gameLog| == s.roundNumber
         && s.playerSelectedCard.Some? && s.opponentSelectedCard.Some? && s.gameResult.Some?
  }

  lemma InvariantCountsCards(s: GameState)
    requires Invariant(s)
    ensures TotalCards(s) == 18
  {
    var m := multiset(s.playerDeck) + multiset(s.opponentDeck);
    assert |m| == |s.playerDeck| + |s.opponentDeck|;
  }

  lemma EventPreservesInvariant(s: GameState, e: Event)
    requires Invariant(s) && Allowed(s, e)
    ensures Invariant(Apply(s, e))
  {
  }

  /** Reachable settlements never switch the game off: both pre-settlement
      decks still hold the cards just played. */
  lemma SettlementNeverEndsGame(s: GameState)
    requires Invariant(s) && s.gamePhase == Result
    ensures Settle(s).isGameActive
  {
  }

  function Run(s: GameState, events: seq<Event>): GameState
    requires AllowedRun(s, events)
    decreases |events|
  {
    if events == [] then s else Run(Apply(s, events[0]), events[1..])
  }

  predicate AllowedRun(s: GameState, events: seq<Event>)
    decreases |events|
  {
    events == [] || (Allowed(s, events[0]) && AllowedRun(Apply(s, events[0]), events[1..]))
  }

  /** Any allowed run that starts in a state satisfying the invariant (a
      new game, for one) keeps eighteen cards in play and the game active. */
  lemma {:induction false} RunPreservesInvariant(s: GameState, events: seq<Event>)
    requires Invariant(s) && AllowedRun(s, events)
    ensures Invariant(Run(s, events))
    ensures TotalCards(Run(s, events)) == 18 && Run(s, events).isGameActive
    decreases |events|
  {
    if events == [] {
      InvariantCountsCards(s);
    } else {
      EventPreservesInvariant(s, events[0]);
      RunPreservesInvariant(Apply(s, events[0]), events[1..]);
    }
  }
}
