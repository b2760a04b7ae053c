# Five-element card duel — a Dafny model of the battle rules

This project models the rules core of a small card battler in Dafny 4.11.

In the current game, every card carries one of five elements (metal, wood,
water, fire, earth) and a point value. The elements sit on the clockwise cycle
wood → fire → earth → metal → water → wood. A round compares two cards by
their *effective points*, which depend on the clockwise distance between their
elements. The winning side takes the losing card with its points reset to 1,
and the winning card gains a point. A deck-selection screen lets the player
choose exactly seven cards. An earlier version of the game used rock, paper
and scissors, moved cards by value and kept no points. It is modelled too.

Modules, one per source concern:

- `Common` (`common.dfy`): `Option`, the `DeckPair` returned by both transfer functions, and `RemoveAt` (`splice(i, 1)`).
- `Elements` (`elements.dfy`): the element cycle, clockwise distance, the generation and restriction relations, and the descriptive relationship classifier.
- `Battle` (`battle.dfy`): cards, effective points, and round outcome.
- `Decks` (`decks.dfy`): lookup by id, the transfer with point reset and winner credit, and the initial ten-card deck.
- `Round` (`round.dfy`): the round state machine of the five-element game page.
- `DeckSelection` (`deck_selection.dfy`): the seven-card selection screen.
- `LegacyRules` and `LegacyRound` (`legacy_rules.dfy`, `legacy_round.dfy`): the rock-paper-scissors rules and their game page.

The page logic lives in React effects driven by timers. Here each effect is a
pure transition function over a state record. When the effect's condition
does not hold, the transition returns the state unchanged. An `Event`
datatype and `Apply`/`Run` functions chain transitions. The surroundings
guarantee some conditions: the clicked card is in the player's deck, and the
random index lies inside the opponent's deck. `Allowed` states those
conditions.

Points about the code that the model follows:

- **Scoring constants.** The bonus and the penalty are `ceil(q/5)*4`.
- **Misleading comments.** The comments beside the scoring branches speak of distances 1 and 2. The code actually tests distances 4 and 3. So a card gains when the *opponent's* element generates its own, and it is weakened when the opponent's element restricts it. The classifier `getElementRelationship` describes the relation from the first card's side, at distances 1 and 2. `Battle.GeneratorGivesBonus` proves that the card the classifier says "generates" is the one that gains nothing.
- **Winner credit.** It writes `myCard` with one more point at the first index of `myCard.id` in the *original* target deck. So it never touches the appended card. When the transferred id is absent, nothing changes and no one is credited.
- **Stale end-of-game test.** Both game pages test for empty decks using the decks as they were *before* the settlement. In every reachable state, both of those decks still hold the cards just played. So the test never fires (`Round.SettlementNeverEndsGame`, `LegacyRound.SettlementNeverEndsGame`), and the game stays active forever. When the opponent has lost every card, the five-element page waits in the reveal phase with no opponent card (`Round.EmptyOpponentDeckStalls`).
- **Deck sizes.** Fresh decks hold ten cards, two per element, in the order metal, wood, water, fire, earth. The selection screen picks seven cards, but it cannot hand them over. Its start button calls `setSelectedGameDeck`, which the game context does not provide, so a complete selection makes the click throw before navigation (see Findings). The game page would not read a selection anyway: it deals itself two fresh ten-card decks. So a reachable game always has twenty cards in play (eighteen in the legacy game).
- **Legacy page.** The legacy page sorts both decks during render with `a.value.localeCompare(b.value)` (src/app/game/page.tsx:147 and :309). The decks hold plain strings, so `a.value` is undefined and the sort throws as soon as a deck has two cards. The legacy page therefore cannot render as written. `LegacyRound` models the state machine its effects and handlers evidently intend.
- **Legacy card type.** The legacy rules compare cards to the literals `"rock"`, `"paper"` and `"scissors"`. Its card type, however, is declared as a record with an id and a value. The model states the legacy rules over the value (`CardValue`), which is what the decks actually hold.

## Model

| member | source | states |
|---|---|---|
| `Common.RemoveAt` | frontend/src/lib/game-logic.ts:96-97 | removing index i keeps the prefix, shifts the suffix down by one, and removes exactly one copy of the element from the multiset |
| `Elements.CycleIndex` | frontend/src/lib/game-logic.ts:10-16 | every element has a position on the cycle `[wood, fire, earth, metal, water]`, and the cycle holds that element there |
| `Elements.ClockwiseDistance` | frontend/src/lib/game-logic.ts:13-20 | the distance lies in [0,4], walking that many steps clockwise from `from` reaches `to`, and it is 0 exactly when the elements are equal |
| `Elements.DistanceUnique` | frontend/src/lib/game-logic.ts:13-20 | no other step count below five reaches `to`, so the distance is the unique clockwise step count |
| `Elements.DistanceComplement` | frontend/src/lib/game-logic.ts:13-20 | for distinct elements, dist(a,b) + dist(b,a) = 5 |
| `Elements.DistanceRelations` | frontend/src/lib/game-logic.ts:10-20 | distance 1 / 2 means a generates / restricts b; distance 4 / 3 means b generates / restricts a |
| `Elements.DisplayName` | frontend/src/lib/game-logic.ts:146-152 | each display name is the element's lower-case tag with its first letter capitalised |
| `Elements.GetElementRelationship` | frontend/src/lib/game-logic.ts:120-152 | "generates" exactly when `to` is one step clockwise of `from`, "restricts" exactly when it is two steps, "neutral" otherwise, with the display text of each case |
| `Battle.CeilFifth` | frontend/src/lib/game-logic.ts:28 | the result is the ceiling of q/5, for every integer q |
| `Battle.Bonus` | frontend/src/lib/game-logic.ts:28-33 | the bonus is a multiple of 4 with 4q <= 5b < 4q+20; for q >= 0 it equals (q+4)/5*4 and is non-negative |
| `Battle.EffectivePoints` | frontend/src/lib/game-logic.ts:22-42 | when the opponent's element generates the card's: p + bonus(q); when it restricts the card's: max(p - bonus(q), 0); same element: p + q; otherwise p; never negative when both points are non-negative |
| `Battle.DetermineWinner` | frontend/src/lib/game-logic.ts:44-58 | returns both effective scores (each card scored against the other) and win / lose / draw exactly when the player's score is greater / smaller / equal |
| `Battle.SwapFlipsOutcome` | frontend/src/lib/game-logic.ts:44-58 | swapping the cards swaps the two scores, turns win into lose and back, and keeps draw |
| `Battle.SameElementDraws` | frontend/src/lib/game-logic.ts:36-38 | two cards of one element both score p + q, so the round is a draw |
| `Battle.GeneratorGivesBonus` | frontend/src/lib/game-logic.ts:23-29 | when the classifier says a generates b, a scores its bare points and b gains the bonus computed from a's points |
| `Battle.RestrictorSuppresses` | frontend/src/lib/game-logic.ts:23-34 | when the classifier says a restricts b, a scores its bare points and b loses the bonus, clamped at 0 |
| `Battle.WoodAgainstFire` | frontend/src/lib/game-logic.ts:44-58 | wood(1) against fire(1): distances 1 and 4, scores 1 and 5, and the wood side loses |
| `Decks.FindById` | frontend/src/lib/game-logic.ts:85-90 | no index exactly when no card has the id; otherwise the index of the first card with that id |
| `Decks.UpdateValueTransfer` | frontend/src/lib/game-logic.ts:78-118 | absent id: both decks unchanged; otherwise the first card with that id is removed from the source and appended to the target with point 1; the first target slot holding `myCard.id` becomes `myCard` with one more point; every other slot is unchanged; the total count is conserved |
| `Decks.TransferConservesIds` | frontend/src/lib/game-logic.ts:92-114 | the multiset of ids across both decks is the same before and after a transfer |
| `Decks.TransferKeepsIdsDistinct` | frontend/src/lib/game-logic.ts:92-114 | if all ids across both decks are distinct, they remain distinct after a transfer |
| `Decks.Deal` | frontend/src/lib/game-logic.ts:65-73 | card k has the element at position k/2 of the given list, one point, and the id `<element>-<suffix k>` |
| `Decks.InitialDeck` | frontend/src/lib/game-logic.ts:60-76 | ten cards, two each of metal, wood, water, fire, earth in that order, all with point 1, with ids prefixed by their element |
| `Decks.InitialDeckIdsDistinct` | frontend/src/lib/game-logic.ts:66-71 | distinct random suffixes give a fresh deck with distinct ids |
| `Decks.FreshDecksIdsDistinct` | frontend/src/lib/game-logic.ts:60-76 | two fresh decks dealt from twenty distinct suffixes have no id twice across both decks |
| `Decks.DistinctIdsSwap` | frontend/src/app/game/page.tsx:83-103 | distinct ids across two decks stay distinct whichever deck is listed first, so a transfer in either direction keeps them |
| `Round.NewGame` | frontend/src/app/game/page.tsx:131-145 | the decks are exactly the fresh decks dealt from the two suffix lists (ten cards each), round 1, empty log, selection phase, no card, outcome or effective score stored, game active |
| `Round.SelectCard` | frontend/src/app/game/page.tsx:124-129 | the card is taken only in selection with no card chosen yet; otherwise the state is unchanged; no other field changes |
| `Round.OpponentPick` | frontend/src/app/game/page.tsx:33-46 | fires only when the game is active, in selection, with a player card chosen; then the opponent card is the deck card at the index (none on an empty deck) and the phase is reveal; nothing else changes |
| `Round.Resolve` | frontend/src/app/game/page.tsx:48-76 | in reveal with both cards chosen: stores the outcome and both scores of `DetermineWinner`, appends exactly one log entry with the round number, both cards, outcome and scores, and moves to result; every other field (decks, selections, round, activity) is unchanged; otherwise the state is unchanged |
| `Round.SettledDecks` | frontend/src/app/game/page.tsx:83-103 | win: the opponent card moves to the player deck and the player card is credited (`UpdateValueTransfer`); lose: the reverse; draw: both decks unchanged; total count conserved |
| `Round.Settle` | frontend/src/app/game/page.tsx:78-122 | applies the settled decks and keeps the log; if a pre-settlement deck was empty the game becomes inactive and every other field stays as it was; otherwise the round increments, selections, result and scores are cleared, the phase returns to selection and nothing else changes; the card count is conserved |
| `Round.NewGameEstablishesInvariant` | frontend/src/app/game/page.tsx:131-145 | a new game dealt from twenty distinct suffixes satisfies the reachable-state invariant, distinct ids across both decks included |
| `Round.SettleKeepsIdsDistinct` | frontend/src/app/game/page.tsx:83-103 | settling a win, loss or draw keeps every id unique across both decks |
| `Round.EventPreservesInvariant` | frontend/src/app/game/page.tsx:33-145 | every allowed event keeps: twenty cards in play, no id twice across both decks, log length round-1 in selection and reveal and round in result, entry k numbered k+1, chosen cards still in their decks, game active |
| `Round.SettlementNeverEndsGame` | frontend/src/app/game/page.tsx:105-117 | in a reachable result phase the stale empty-deck test is false, so settling always starts the next round and the game stays active |
| `Round.EmptyOpponentDeckStalls` | frontend/src/app/game/page.tsx:37-50 | with an empty opponent deck the pick stores no card and moves to reveal, after which no timer changes the state |
| `Round.RunPreservesInvariant` | frontend/src/app/game/page.tsx:33-145 | any allowed run of events from an invariant state keeps the invariant, twenty cards in play and an active game |
| `DeckSelection.AvailableCards` | frontend/src/app/deck-selection/page.tsx:20-32 | the offer is exactly the player's collection if non-empty, else exactly the fresh ten-card initial deck; it is never empty |
| `DeckSelection.CopyCards` | frontend/src/app/deck-selection/page.tsx:53-57 | the field-by-field copy equals the original cards |
| `DeckSelection.RemoveId` | frontend/src/app/deck-selection/page.tsx:38 | keeps exactly the selected cards without that id, and is strictly shorter when the id was present |
| `DeckSelection.RemoveIdAppend` | frontend/src/app/deck-selection/page.tsx:38 | filtering a concatenation filters each part and keeps their order, so the filter preserves the relative order of the remaining cards |
| `DeckSelection.RemoveIdKeepsDistinct` | frontend/src/app/deck-selection/page.tsx:36-38 | removing an id from a selection with distinct ids keeps the ids distinct |
| `DeckSelection.Toggle` | frontend/src/app/deck-selection/page.tsx:34-43 | a selected id is filtered out (the result is `RemoveId` of it); an unselected card is appended when fewer than 7 are chosen; with 7 chosen the selection is unchanged |
| `DeckSelection.ToggleKeepsWellFormed` | frontend/src/app/deck-selection/page.tsx:34-43 | toggling keeps the selection at most 7 cards with no id twice |
| `DeckSelection.IsComplete` | frontend/src/app/deck-selection/page.tsx:46-48 | a complete selection ignores every card not yet chosen, and a well-formed incomplete one appends it |
| `DeckSelection.StartGame` | frontend/src/app/deck-selection/page.tsx:50-60 | start as evidently intended: a game deck exists exactly when 7 cards are selected, and it holds the selected cards in selection order, with the same id, element and point |
| `DeckSelection.StartGameAsWritten` | frontend/src/app/deck-selection/page.tsx:51-59 | start as written: the click throws exactly when 7 cards are selected and is ignored otherwise |
| `DeckSelection.StartAsWrittenCrashesWhenComplete` | frontend/src/app/deck-selection/page.tsx:51-59 | the page as written throws for exactly the selections the intended start turns into a game deck |
| `DeckSelection.ClicksOnNewCardsAppend` | frontend/src/app/deck-selection/page.tsx:34-43 | clicking cards with new, distinct ids while there is room appends them in click order |
| `DeckSelection.SevenFreshCardsCrash` | frontend/src/app/deck-selection/page.tsx:34-59 | clicking the first seven cards of a fresh deck gives seven selected cards, for which the intended start yields a deck and the written start throws |
| `DeckSelection.ClicksStayWellFormed` | frontend/src/app/deck-selection/page.tsx:34-60 | any sequence of clicks keeps the selection well formed, and a started game gets cards with distinct ids |
| `LegacyRules.DetermineWinner` | src/lib/game-logic.ts:3-20 | draw exactly for equal values; win exactly when the player's value is one step ahead on the rock → paper → scissors → rock cycle; lose exactly when the opponent's is |
| `LegacyRules.WinMirrorsLose` | src/lib/game-logic.ts:7-19 | for distinct values, a beats b exactly when b loses to a, and there is no draw |
| `LegacyRules.InitialDeck` | src/lib/game-logic.ts:22-29 | nine cards: three rock, three paper, three scissors, in that order |
| `LegacyRules.IndexOf` | src/lib/game-logic.ts:36-37 | no index exactly when the value is absent; otherwise the first index holding it |
| `LegacyRules.TransferCard` | src/lib/game-logic.ts:31-55 | absent value: both decks unchanged; otherwise its first occurrence is removed from the source and the value is appended to the target; lengths and the combined multiset are conserved |
| `LegacyRound.StartNewGame` | src/app/game/page.tsx:123-135 | two fresh nine-card decks, round 1, empty log, selection phase, nothing selected, game active |
| `LegacyRound.SelectCard` | src/app/game/page.tsx:116-121 | the card is taken only in selection with no card chosen yet; otherwise the state is unchanged |
| `LegacyRound.OpponentPick` | src/app/game/page.tsx:31-44 | fires only when the game is active, in selection, with a player card chosen; picks the deck card at the index (none on an empty deck) and moves to reveal |
| `LegacyRound.Resolve` | src/app/game/page.tsx:46-70 | in reveal with both cards chosen: stores the outcome, appends one log entry with round, both cards and outcome, and moves to result; every other field is unchanged; otherwise the state is unchanged |
| `LegacyRound.SettledDecks` | src/app/game/page.tsx:76-96 | win: `transferCard(opponentDeck, playerDeck, opponentCard)`; lose: the reverse; draw: no change; the count and combined multiset are conserved |
| `LegacyRound.Settle` | src/app/game/page.tsx:72-114 | settles the decks, always increments the round, clears selections and result, and returns to selection; the game becomes inactive exactly when it was inactive or a pre-settlement deck was empty |
| `LegacyRound.InvariantCountsCards` | src/app/game/page.tsx:17-18 | a state with nine of each value in play across both decks holds eighteen cards |
| `LegacyRound.EventPreservesInvariant` | src/app/game/page.tsx:31-135 | every allowed event keeps: nine of each value in play, the log numbered by round and matching the phase, chosen cards in their decks, game active |
| `LegacyRound.SettlementNeverEndsGame` | src/app/game/page.tsx:105-109 | in a reachable result phase both pre-settlement decks are non-empty, so settling leaves the game active |
| `LegacyRound.RunPreservesInvariant` | src/app/game/page.tsx:31-135 | any allowed run of events keeps the invariant, eighteen cards in play and an active game |

## Left out

- Random ids (`generateId`, frontend/src/lib/game-logic.ts:6-8): the random suffixes are a parameter of `Decks.InitialDeck`. Uniqueness is an assumption of `Decks.InitialDeckIdsDistinct`, because random draws carry no guarantee.
- The opponent's random index: it is the parameter `i` of `OpponentPick`. The surroundings keep it inside a non-empty deck. On an empty deck the page reads past the end, which is modelled as "no card".
- Timers and effect cleanup: each `setTimeout` firing is one explicit transition. Delays and cancellation are scheduling only.
- Rendering, animation, navigation and the UI flags `showGameLog` and `showControls`: they hold no rules.
- Persistence in `GameContext` (local storage load and save, JSON): this is I/O. The collection reaches `DeckSelection.AvailableCards` as a parameter. Its `startGame`, `resetGame` and `playCard` are stubs.
- `setupGame`, `generatePlayerDeck`, `generateComputerDeck`: thin wrappers over the initial deck.
- Handing the selected seven cards to the game page: as written the start click throws (`DeckSelection.StartGameAsWritten`), and the game page never reads a selection, so nothing connects `DeckSelection.StartGame` to `Round`.
- The in-place sort of both decks in the legacy page's render: as written its comparator reads `.value` on plain strings and throws for any deck of two or more cards, so the page cannot render; `LegacyRound` models the state machine the page evidently intends, without the sort. Legacy transfer works by value, so a working sort would not change any outcome.
- A five-round match with used-card exclusion and settlement at match end: no code implements it. The only trace is a line of UI text.
- Number representation: points are unbounded integers. JavaScript numbers are doubles, but points only grow by one per won round, so they never approach 2^53.
- `isSelectionComplete` is a state flag refreshed by an effect. The model computes it from the selection (`IsComplete`) at the moment of use.

## Findings

| source | as written | input that shows it | evidently intended | confidence | as-written member | corrected member |
|---|---|---|---|---|---|---|
| frontend/src/app/deck-selection/page.tsx:14-59 | `handleStartGame` calls `setSelectedGameDeck`, which the game context (frontend/src/contexts/GameContext.tsx:124-135) does not provide, so the call throws a TypeError before `router.push` | any seven selected cards, for example the first seven cards of a fresh deck (`DeckSelection.SevenFreshCardsCrash`) | store the seven selected cards as the game deck and move to the game page | not executed | `DeckSelection.StartGameAsWritten` | `DeckSelection.StartGame` |
