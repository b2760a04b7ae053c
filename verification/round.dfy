/** The round state machine of the five-element game page
    (frontend/src/app/game/page.tsx). The page drives it from React effects
    and timers; here every timer firing is an explicit transition, and a
    transition whose effect condition does not hold leaves the state as it
    is. */
module Round {
  import opened Common
  import opened Elements
  import opened Battle
  import opened Decks

  datatype Phase = Selection | Reveal | Result

  /** One line of the game log. */
  datatype LogEntry = LogEntry(
    round: int,
    playerCard: Card,
    opponentCard: Card,
    result: Outcome,
    playerEffectivePoints: int,
    opponentEffectivePoints: int)

  /** The page's game state (its `useState` hooks, without the UI flags). */
  datatype GameState = GameState(
    playerDeck: seq<Card>,
    opponentDeck: seq<Card>,
    playerSelectedCard: Option<Card>,
    opponentSelectedCard: Option<Card>,
    gameResult: Option<Outcome>,
    playerEffectivePoints: Option<int>,
    opponentEffectivePoints: Option<int>,
    roundNumber: int,
    gameLog: seq<LogEntry>,
    gamePhase: Phase,
    isGameActive: bool)

  /** Cards in play across both decks. */
  function TotalCards(s: GameState): nat
  {
    |s.playerDeck| + |s.opponentDeck|
  }

  /** `handleNewGame`, and also the page's initial state: two fresh decks,
      round 1, empty log, selection phase, game active. The random id
      suffixes of both decks are parameters. */
  function NewGame(playerSuffixes: seq<string>, opponentSuffixes: seq<string>): (s: GameState)
    requires |playerSuffixes| == InitialDeckSize && |opponentSuffixes| == InitialDeckSize
    ensures s.playerDeck == InitialDeck(playerSuffixes) && s.opponentDeck == InitialDeck(opponentSuffixes)
    ensures |s.playerDeck| == 10 && |s.opponentDeck| == 10
    ensures s.roundNumber == 1 && s.gameLog == [] && s.gamePhase == Selection && s.isGameActive
    ensures s.playerSelectedCard.None? && s.opponentSelectedCard.None? && s.gameResult.None?
    ensures s.playerEffectivePoints.None? && s.opponentEffectivePoints.None?
  {
    GameState(InitialDeck(playerSuffixes), InitialDeck(opponentSuffixes),
              None, None, None, None, None, 1, [], Selection, true)
  }

  /** `handleCardSelect`: the click is taken only in the selection phase
      while no card is chosen yet. */
  function SelectCard(s: GameState, card: Card): (t: GameState)
    ensures t.playerSelectedCard == Some(card) || t == s
    ensures t != s <==> s.gamePhase == Selection && s.playerSelectedCard.None?
    ensures t.(playerSelectedCard := s.playerSelectedCard) == s
  {
    if s.gamePhase == Selection && s.playerSelectedCard.None? then
      s.(playerSelectedCard := Some(card))
    else
      s
  }

  /** The opponent's timer: while the game is active, in the selection
      phase, once the player has chosen, the opponent takes the card at the
      random index `i` and the round moves to reveal. On an empty opponent
      deck the page reads past the end and stores no card. */
  function OpponentPick(s: GameState, i: nat): (t: GameState)
    requires s.opponentDeck != [] ==> i < |s.opponentDeck|
    ensures var fires := s.isGameActive && s.gamePhase == Selection && s.playerSelectedCard.Some?;
            && (!fires ==> t == s)
            && (fires ==> t.gamePhase == Reveal)
            && (fires && s.opponentDeck != [] ==> t.opponentSelectedCard == Some(s.opponentDeck[i]))
            && (fires && s.opponentDeck == [] ==> t.opponentSelectedCard.None?)
    ensures t.(opponentSelectedCard := s.opponentSelectedCard, gamePhase := s.gamePhase) == s
  {
    if s.isGameActive && s.gamePhase == Selection && s.playerSelectedCard.Some? then
      var availableCards := s.opponentDeck;
      s.(opponentSelectedCard := if i < |availableCards| then Some(availableCards[i]) else None,
         gamePhase := Reveal)
    else
      s
  }

  /** The reveal timer: with both cards on the table the round is scored,
      exactly one log entry is appended and the round moves to result. */
  function Resolve(s: GameState): (t: GameState)
    ensures !(s.gamePhase == Reveal && s.playerSelectedCard.Some? && s.opponentSelectedCard.Some?) ==> t == s
    ensures s.gamePhase == Reveal && s.playerSelectedCard.Some? && s.opponentSelectedCard.Some? ==>
              var p := s.playerSelectedCard.value;
              var o := s.opponentSelectedCard.value;
              var b := DetermineWinner(p, o);
              && t.gamePhase == Result
              && t.gameResult == Some(b.result)
              && t.playerEffectivePoints == Some(b.playerEffectivePoints)
              && t.opponentEffectivePoints == Some(b.opponentEffectivePoints)
              && |t.gameLog| == |s.gameLog| + 1
              && t.gameLog[..|s.gameLog|] == s.gameLog
              && t.gameLog[|s.gameLog|] == LogEntry(s.roundNumber, p, o, b.result,
                                                    b.playerEffectivePoints, b.opponentEffectivePoints)
    ensures t.(gameResult := s.gameResult,
               playerEffectivePoints := s.playerEffectivePoints,
               opponentEffectivePoints := s.opponentEffectivePoints,
               gameLog := s.gameLog,
               gamePhase := s.gamePhase) == s
  {
    if s.gamePhase == Reveal && s.playerSelectedCard.Some? && s.opponentSelectedCard.Some? then
      var p := s.playerSelectedCard.value;
      var o := s.opponentSelectedCard.value;
      var battle := DetermineWinner(p, o);
      var entry := LogEntry(s.roundNumber, p, o, battle.result,
                            battle.playerEffectivePoints, battle.opponentEffectivePoints);
      s.(gameResult := Some(battle.result),
         playerEffectivePoints := Some(battle.playerEffectivePoints),
         opponentEffectivePoints := Some(battle.opponentEffectivePoints),
         gameLog := s.gameLog + [entry],
         gamePhase := Result)
    else
      s
  }

  /** The decks after the round's outcome is applied: on a win the
      opponent's card moves to the player and the player's card is credited,
      on a loss the reverse, on a draw nothing moves. Returned as
      (player deck, opponent deck). */
  function SettledDecks(s: GameState, p: Card, o: Card, result: Outcome): (d: (seq<Card>, seq<Card>))
    ensures result == Win ==>
              var x := UpdateValueTransfer(s.opponentDeck, s.playerDeck, o, p);
              d == (x.updatedToDeck, x.updatedFromDeck)
    ensures result == Lose ==>
              var x := UpdateValueTransfer(s.playerDeck, s.opponentDeck, p, o);
              d == (x.updatedFromDeck, x.updatedToDeck)
    ensures result == Draw ==> d == (s.playerDeck, s.opponentDeck)
    ensures |d.0| + |d.1| == TotalCards(s)
  {
    match result
    case Win =>
      var x := UpdateValueTransfer(s.opponentDeck, s.playerDeck, o, p);
      (x.updatedToDeck, x.updatedFromDeck)
    case Lose =>
      var x := UpdateValueTransfer(s.playerDeck, s.opponentDeck, p, o);
      (x.updatedFromDeck, x.updatedToDeck)
    case Draw => (s.playerDeck, s.opponentDeck)
  }

  /** The condition under which the settlement effect runs. */
  predicate SettleReady(s: GameState)
  {
    s.gamePhase == Result && s.playerSelectedCard.Some? && s.opponentSelectedCard.Some? && s.gameResult.Some?
  }

  /** The settlement timer. After the decks are updated, the end-of-game
      test reads the decks as they were BEFORE this settlement: if one of
      them was empty the game stops and everything else stays, selections,
      outcome and scores included (so the effect is ready to run again);
      otherwise the next round starts with everything per-round cleared. */
  function Settle(s: GameState): (t: GameState)
    ensures !SettleReady(s) ==> t == s
    ensures SettleReady(s) ==>
              && (t.playerDeck, t.opponentDeck)
                 == SettledDecks(s, s.playerSelectedCard.value, s.opponentSelectedCard.value, s.gameResult.value)
              && t.gameLog == s.gameLog
              && (s.playerDeck == [] || s.opponentDeck == [] ==>
                    t == s.(playerDeck := t.playerDeck, opponentDeck := t.opponentDeck, isGameActive := false))
              && (s.playerDeck != [] && s.opponentDeck != [] ==>
                    t == s.(playerDeck := t.playerDeck,
                            opponentDeck := t.opponentDeck,
                            roundNumber := s.roundNumber + 1,
                            playerSelectedCard := None,
                            opponentSelectedCard := None,
                            gameResult := None,
                            playerEffectivePoints := None,
                            opponentEffectivePoints := None,
                            gamePhase := Selection))
    ensures TotalCards(t) == TotalCards(s)
  {
    if SettleReady(s) then
      var decks := SettledDecks(s, s.playerSelectedCard.value, s.opponentSelectedCard.value, s.gameResult.value);
      var settled := s.(playerDeck := decks.0, opponentDeck := decks.1);
      if |s.playerDeck| == 0 || |s.opponentDeck| == 0 then
        settled.(isGameActive := false)
      else
        settled.(roundNumber := s.roundNumber + 1,
                 playerSelectedCard := None,
                 opponentSelectedCard := None,
                 gameResult := None,
                 playerEffectivePoints := None,
                 opponentEffectivePoints := None,
                 gamePhase := Selection)
    else
      s
  }

  /** What can happen to the page: a click on a card, one of the three
      timers firing, or the new-game button. */
  datatype Event =
    | Choose(card: Card)
    | OpponentChoose(index: nat)
    | RevealTimer
    | SettleTimer
    | Restart(playerSuffixes: seq<string>, opponentSuffixes: seq<string>)

  /** The conditions the surroundings guarantee: the deck view only offers
      the player's own cards, the random index lies inside a non-empty
      opponent deck, and a new game draws ten id suffixes per deck, no
      suffix twice. */
  predicate Allowed(s: GameState, e: Event)
  {
    match e
    case Choose(card) => card in s.playerDeck
    case OpponentChoose(i) => s.opponentDeck != [] ==> i < |s.opponentDeck|
    case RevealTimer => true
    case SettleTimer => true
    case Restart(ps, os) => |ps| == InitialDeckSize && |os| == InitialDeckSize && DistinctSuffixes(ps + os)
  }

  function Apply(s: GameState, e: Event): GameState
    requires Allowed(s, e)
  {
    match e
    case Choose(card) => SelectCard(s, card)
    case OpponentChoose(i) => OpponentPick(s, i)
    case RevealTimer => Resolve(s)
    case SettleTimer => Settle(s)
    case Restart(ps, os) => NewGame(ps, os)
  }

  /** What holds in every state the page can reach: twenty cards in play,
      no id twice across both decks, a log entry per finished round
      numbered by its position, the chosen cards still in their decks, and
      a game that is still active. */
  predicate Invariant(s: GameState)
  {
    && TotalCards(s) == 2 * InitialDeckSize
    && DistinctIds(s.playerDeck + s.opponentDeck)
    && s.isGameActive
    && (forall k | 0 <= k < |s.gameLog| :: s.gameLog[k].round == k + 1)
    && (s.playerSelectedCard.Some? ==> s.playerSelectedCard.value in s.playerDeck)
    && (s.opponentSelectedCard.Some? ==> s.opponentSelectedCard.value in s.opponentDeck)
    && match s.gamePhase
       case Selection =>
         && |s.gameLog| == s.roundNumber - 1
         && s.opponentSelectedCard.None? && s.gameResult.None?
       case Reveal =>
         && |s.gameLog| == s.roundNumber - 1
         && s.playerSelectedCard.Some? && s.gameResult.None?
       case Result =>
         && |s.gameLog| == s.roundNumber
         && s.playerSelectedCard.Some? && s.opponentSelectedCard.Some? && s.gameResult.Some?
  }

  lemma NewGameEstablishesInvariant(ps: seq<string>, os: seq<string>)
    requires |ps| == InitialDeckSize && |os| == InitialDeckSize && DistinctSuffixes(ps + os)
    ensures Invariant(NewGame(ps, os))
  {
    FreshDecksIdsDistinct(ps, os);
  }

  /** Settling keeps ids distinct across both decks, whichever way the
      card moves. */
  lemma SettleKeepsIdsDistinct(s: GameState)
    requires SettleReady(s) && DistinctIds(s.playerDeck + s.opponentDeck)
    ensures DistinctIds(Settle(s).playerDeck + Settle(s).opponentDeck)
  {
    var p := s.playerSelectedCard.value;
    var o := s.opponentSelectedCard.value;
    match s.gameResult.value
    case Win =>
      DistinctIdsSwap(s.playerDeck, s.opponentDeck);
      TransferKeepsIdsDistinct(s.opponentDeck, s.playerDeck, o, p);
      var x := UpdateValueTransfer(s.opponentDeck, s.playerDeck, o, p);
      DistinctIdsSwap(x.updatedFromDeck, x.updatedToDeck);
    case Lose =>
      TransferKeepsIdsDistinct(s.playerDeck, s.opponentDeck, p, o);
    case Draw =>
  }

  /** Every event keeps the invariant. */
  lemma EventPreservesInvariant(s: GameState, e: Event)
    requires Invariant(s) && Allowed(s, e)
    ensures Invariant(Apply(s, e))
  {
    match e
    case Choose(card) =>
    case OpponentChoose(i) =>
    case RevealTimer =>
    case SettleTimer =>
      if SettleReady(s) {
        SettleKeepsIdsDistinct(s);
      }
    case Restart(ps, os) => NewGameEstablishesInvariant(ps, os);
  }

  /** In a reachable result phase both decks still hold the cards that
      were played, so the end-of-game test, which reads the pre-settlement
      decks, never fires: settling always starts the next round. */
  lemma SettlementNeverEndsGame(s: GameState)
    requires Invariant(s) && s.gamePhase == Result
    ensures Settle(s).isGameActive
    ensures Settle(s).gamePhase == Selection && Settle(s).roundNumber == s.roundNumber + 1
  {
  }

  /** The flip side of the stale end-of-game test: when the opponent has
      lost every card, the next pick stores no card and the page waits in
      the reveal phase forever, because neither the reveal timer nor the
      settlement timer nor another pick can fire. */
  lemma EmptyOpponentDeckStalls(s: GameState, i: nat, j: nat)
    requires s.isGameActive && s.gamePhase == Selection && s.playerSelectedCard.Some?
    requires s.opponentDeck == []
    ensures var t := OpponentPick(s, i);
            && t.gamePhase == Reveal && t.opponentSelectedCard.None? && t.isGameActive
            && Resolve(t) == t && Settle(t) == t && OpponentPick(t, j) == t
  {
  }

  /** The state after a run of events, each allowed where it happens. */
  function Run(s: GameState, events: seq<Event>): GameState
    requires AllowedRun(s, events)
    decreases |events|
  {
    if events == [] then s else Run(Apply(s, events[0]), events[1..])
  }

  predicate AllowedRun(s: GameState, events: seq<Event>)
    decreases |events|
  {
    events == [] || (Allowed(s, events[0]) && AllowedRun(Apply(s, events[0]), events[1..]))
  }

  /** Any allowed run that starts in a state satisfying the invariant (a
      new game, for one) keeps twenty cards in play with distinct ids,
      keeps the log numbered by round, and never deactivates the game. */
  lemma {:induction false} RunPreservesInvariant(s: GameState, events: seq<Event>)
    requires Invariant(s) && AllowedRun(s, events)
    ensures Invariant(Run(s, events))
    ensures TotalCards(Run(s, events)) == 20 && Run(s, events).isGameActive
    decreases |events|
  {
    if events != [] {
      EventPreservesInvariant(s, events[0]);
      RunPreservesInvariant(Apply(s, events[0]), events[1..]);
    }
  }
}
