/** The deck-selection screen (frontend/src/app/deck-selection/page.tsx):
    the player toggles cards of their collection in and out of a selection
    of at most seven, and may start once exactly seven are chosen. */
module DeckSelection {
  import opened Common
  import opened Battle
  import opened Decks

  /** The size of a game deck. */
  const MaxSelected: nat := 7

  /** The cards offered: the player's collection, copied field by field,
      or a fresh initial deck when the collection is empty. The offer is
      therefore never empty. */
  function AvailableCards(collection: seq<Card>, freshSuffixes: seq<string>): (r: seq<Card>)
    requires |freshSuffixes| == InitialDeckSize
    ensures r != []
    ensures collection != [] ==> r == collection
    ensures collection == [] ==> r == InitialDeck(freshSuffixes)
  {
    if |collection| > 0 then CopyCards(collection) else InitialDeck(freshSuffixes)
  }

  /** `cards.map(card => ({ id, element, point }))`: a copy with the same
      fields in the same order. */
  function CopyCards(cards: seq<Card>): (r: seq<Card>)
    ensures r == cards
  {
    seq(|cards|, k requires 0 <= k < |cards| => Card(cards[k].id, cards[k].element, cards[k].point))
  }

  /** `selectedCards.filter(c => c.id !== id)`: every selected card except
      those carrying `id`, in their original order. */
  function RemoveId(selected: seq<Card>, id: string): (r: seq<Card>)
    ensures forall c :: c in r <==> c in selected && c.id != id
    ensures |r| <= |selected|
    ensures HasId(selected, id) ==> |r| < |selected|
  {
    if selected == [] then []
    else if selected[0].id == id then RemoveId(selected[1..], id)
    else [selected[0]] + RemoveId(selected[1..], id)
  }

  /** Filtering a concatenation filters each part and keeps them in order;
      with the contract above this pins RemoveId down as `filter`. */
  lemma {:induction false} RemoveIdAppend(a: seq<Card>, b: seq<Card>, id: string)
    ensures RemoveId(a + b, id) == RemoveId(a, id) + RemoveId(b, id)
    decreases |a|
  {
    if a == [] {
      assert a + b == b;
    } else {
      assert (a + b)[1..] == a[1..] + b;
      RemoveIdAppend(a[1..], b, id);
    }
  }

  /** Filtering keeps ids distinct: it only drops cards, never reorders or
      duplicates them. */
  lemma {:induction false} RemoveIdKeepsDistinct(selected: seq<Card>, id: string)
    requires DistinctIds(selected)
    ensures DistinctIds(RemoveId(selected, id))
  {
    if selected != [] {
      RemoveIdKeepsDistinct(selected[1..], id);
      if selected[0].id != id {
        var rest := RemoveId(selected[1..], id);
        forall c | c in rest
          ensures c.id != selected[0].id
        {
          var k :| 1 <= k < |selected| && selected[k] == c by {
            assert c in selected[1..];
          }
        }
        var r := [selected[0]] + rest;
        forall i, j | 0 <= i < j < |r|
          ensures r[i].id != r[j].id
        {
          if i == 0 {
            assert r[j] in rest;
          } else {
            assert r[i] == rest[i - 1] && r[j] == rest[j - 1];
          }
        }
      }
    }
  }

  /** `handleCardSelect`: a selected card (matched by id) is taken out;
      an unselected one is added at the end only while fewer than seven are
      chosen; at seven, a new card is ignored. */
  function Toggle(selected: seq<Card>, card: Card): (r: seq<Card>)
    ensures HasId(selected, card.id) ==>
              && r == RemoveId(selected, card.id)
              && !HasId(r, card.id)
              && forall c :: c in r <==> c in selected && c.id != card.id
    ensures !HasId(selected, card.id) && |selected| < MaxSelected ==> r == selected + [card]
    ensures !HasId(selected, card.id) && |selected| >= MaxSelected ==> r == selected
  {
    if HasId(selected, card.id) then RemoveId(selected, card.id)
    else if |selected| < MaxSelected then selected + [card]
    else selected
  }

  /** A selection the screen can hold: at most seven cards, no id twice. */
  predicate WellFormed(selected: seq<Card>)
  {
    |selected| <= MaxSelected && DistinctIds(selected)
  }

  /** Toggling keeps a selection well formed, whichever card is clicked. */
  lemma ToggleKeepsWellFormed(selected: seq<Card>, card: Card)
    requires WellFormed(selected)
    ensures WellFormed(Toggle(selected, card))
  {
    if HasId(selected, card.id) {
      RemoveIdKeepsDistinct(selected, card.id);
    } else if |selected| < MaxSelected {
      var r := selected + [card];
      forall i, j | 0 <= i < j < |r|
        ensures r[i].id != r[j].id
      {
        if j == |selected| {
          assert r[i] == selected[i];
        }
      }
    }
  }

  /** `isSelectionComplete`: exactly seven cards chosen. The page keeps it
      in a flag refreshed after every change of the selection. In a
      well-formed selection it means "full": a card not yet chosen is
      ignored exactly when the selection is complete. */
  predicate IsComplete(selected: seq<Card>)
    ensures IsComplete(selected) ==>
              forall c: Card | !HasId(selected, c.id) :: Toggle(selected, c) == selected
    ensures WellFormed(selected) && !IsComplete(selected) ==>
              forall c: Card | !HasId(selected, c.id) :: Toggle(selected, c) == selected + [c]
  {
    |selected| == MaxSelected
  }

  /** `handleStartGame` as evidently intended: nothing happens unless the
      selection is complete; then the game deck is the selection, card for
      card. */
  function StartGame(selected: seq<Card>): (r: Option<seq<Card>>)
    ensures r.Some? <==> |selected| == MaxSelected
    ensures r.Some? ==>
              && |r.value| == |selected|
              && forall k | 0 <= k < |selected| ::
                   && r.value[k].id == selected[k].id
                   && r.value[k].element == selected[k].element
                   && r.value[k].point == selected[k].point
  {
    if IsComplete(selected) then Some(CopyCards(selected)) else None
  }

  /** What pressing "Start Game" leads to. */
  datatype StartOutcome = Ignored | Crashed

  /** `handleStartGame` as written. The game context hands out no
      `setSelectedGameDeck` (frontend/src/contexts/GameContext.tsx:124-135
      lists every value it provides), so with a complete selection the page
      calls `undefined`, throws a TypeError and never reaches the
      navigation: no deck is stored and no game starts. */
  function StartGameAsWritten(selected: seq<Card>): (r: StartOutcome)
    ensures r == Crashed <==> |selected| == MaxSelected
    ensures r == Ignored <==> |selected| != MaxSelected
  {
    if IsComplete(selected) then Crashed else Ignored
  }

  /** The discrepancy: exactly the selections the intended start turns
      into a game deck make the page as written throw. */
  lemma StartAsWrittenCrashesWhenComplete(selected: seq<Card>)
    ensures StartGame(selected).Some? <==> StartGameAsWritten(selected) == Crashed
    ensures StartGameAsWritten(selected) != Crashed ==> StartGame(selected).None?
  {
  }

  /** The state of the screen after a sequence of clicks from an empty
      selection. */
  function Clicks(selected: seq<Card>, clicks: seq<Card>): seq<Card>
    decreases |clicks|
  {
    if clicks == [] then selected else Clicks(Toggle(selected, clicks[0]), clicks[1..])
  }

  /** Clicking cards whose ids are all new, while there is room, appends
      them in click order. */
  lemma {:induction false} ClicksOnNewCardsAppend(selected: seq<Card>, clicks: seq<Card>)
    requires |selected| + |clicks| <= MaxSelected
    requires DistinctIds(selected + clicks)
    ensures Clicks(selected, clicks) == selected + clicks
    decreases |clicks|
  {
    if clicks != [] {
      var both := selected + clicks;
      assert !HasId(selected, clicks[0].id) by {
        forall j | 0 <= j < |selected|
          ensures selected[j].id != clicks[0].id
        {
          assert both[j] == selected[j] && both[|selected|] == clicks[0];
        }
      }
      var next := selected + [clicks[0]];
      assert next + clicks[1..] == both;
      ClicksOnNewCardsAppend(next, clicks[1..]);
    }
  }

  /** A concrete case: seven clicks on the first seven cards of a fresh
      deck (distinct random suffixes, as the ids are meant to be) complete
      the selection, and pressing start then throws instead of starting a
      game with those seven cards. */
  lemma SevenFreshCardsCrash(suffixes: seq<string>)
    requires |suffixes| == InitialDeckSize && DistinctSuffixes(suffixes)
    ensures var clicked := Clicks([], InitialDeck(suffixes)[..MaxSelected]);
            && |clicked| == MaxSelected
            && StartGameAsWritten(clicked) == Crashed
            && StartGame(clicked).Some?
  {
    var deck := InitialDeck(suffixes);
    InitialDeckIdsDistinct(suffixes);
    var seven := deck[..MaxSelected];
    assert [] + seven == seven;
    ClicksOnNewCardsAppend([], seven);
  }

  /** However the player clicks, the selection never exceeds seven cards
      and never holds an id twice; a game started from it gets seven
      distinct cards. */
  lemma {:induction false} ClicksStayWellFormed(selected: seq<Card>, clicks: seq<Card>)
    requires WellFormed(selected)
    ensures WellFormed(Clicks(selected, clicks))
    ensures StartGame(Clicks(selected, clicks)).Some? ==>
              DistinctIds(StartGame(Clicks(selected, clicks)).value)
    decreases |clicks|
  {
    if clicks != [] {
      ToggleKeepsWellFormed(selected, clicks[0]);
      ClicksStayWellFormed(Toggle(selected, clicks[0]), clicks[1..]);
    }
  }
}
