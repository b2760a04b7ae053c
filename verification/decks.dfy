/** Decks of the five-element game (frontend/src/lib/game-logic.ts): the
    initial deck, lookup by id, and the transfer of a won card together
    with the credit for the winning card. */
module Decks {
  import opened Common
  import opened Elements
  import opened Battle

  /** `i` is the first position of `deck` holding a card with this id
      (what `findIndex(card => card.id === id)` returns when it succeeds). */
  predicate IsFirstIndexOf(deck: seq<Card>, id: string, i: int)
  {
    0 <= i < |deck| && deck[i].id == id && forall k | 0 <= k < i :: deck[k].id != id
  }

  predicate HasId(deck: seq<Card>, id: string)
  {
    exists k | 0 <= k < |deck| :: deck[k].id == id
  }

  /** No two cards of the deck share an id. */
  predicate DistinctIds(deck: seq<Card>)
  {
    forall i, j | 0 <= i < j < |deck| :: deck[i].id != deck[j].id
  }

  /** The ids of a deck, in deck order. */
  function Ids(deck: seq<Card>): (r: seq<string>)
    ensures |r| == |deck|
    ensures forall k | 0 <= k < |deck| :: r[k] == deck[k].id
  {
    if deck == [] then [] else [deck[0].id] + Ids(deck[1..])
  }

  /** `findIndex` by id, with `None` for -1. */
  function FindById(deck: seq<Card>, id: string): (r: Option<nat>)
    ensures r.None? <==> !HasId(deck, id)
    ensures r.Some? ==> IsFirstIndexOf(deck, id, r.value)
  {
    if deck == [] then None
    else if deck[0].id == id then Some(0)
    else
      match FindById(deck[1..], id)
      case None => None
      case Some(i) => Some(i + 1)
  }

  /** `updateValueTransfer`. When `cardToTransfer`'s id is in `fromDeck`,
      the first card with that id leaves `fromDeck` and is appended to
      `toDeck` with its points reset to 1; then, if `myCard`'s id occurs in
      the ORIGINAL `toDeck`, its first occurrence is overwritten by `myCard`
      with one more point. The appended card sits past the end of the
      original deck and is never the one credited. When the id is not in
      `fromDeck` nothing changes, and the winner is not credited either. */
  function UpdateValueTransfer(fromDeck: seq<Card>, toDeck: seq<Card>, cardToTransfer: Card, myCard: Card)
    : (r: DeckPair<Card>)
    ensures !HasId(fromDeck, cardToTransfer.id) ==> r == DeckPair(fromDeck, toDeck)
    ensures forall i | IsFirstIndexOf(fromDeck, cardToTransfer.id, i) ::
              && r.updatedFromDeck == fromDeck[..i] + fromDeck[i + 1..]
              && |r.updatedToDeck| == |toDeck| + 1
              && r.updatedToDeck[|toDeck|] == fromDeck[i].(point := 1)
    ensures HasId(fromDeck, cardToTransfer.id) ==>
              && |r.updatedToDeck| == |toDeck| + 1
              && forall j | 0 <= j < |toDeck| ::
                r.updatedToDeck[j] == (if IsFirstIndexOf(toDeck, myCard.id, j)
                                       then myCard.(point := myCard.point + 1)
                                       else toDeck[j])
    ensures |r.updatedFromDeck| + |r.updatedToDeck| == |fromDeck| + |toDeck|
  {
    match FindById(fromDeck, cardToTransfer.id)
    case None => DeckPair(fromDeck, toDeck)
    case Some(cardIndex) =>
      var updatedCard := fromDeck[cardIndex].(point := 1);
      var appended := toDeck + [updatedCard];
      var updatedToDeck :=
        match FindById(toDeck, myCard.id)
        case None => appended
        case Some(myCardIndex) => appended[myCardIndex := myCard.(point := myCard.point + 1)];
      DeckPair(RemoveAt(fromDeck, cardIndex), updatedToDeck)
  }

  /** Removing a card removes exactly its id from the id list. */
  lemma IdsRemoveAt(deck: seq<Card>, i: nat)
    requires i < |deck|
    ensures multiset(Ids(RemoveAt(deck, i))) + multiset{deck[i].id} == multiset(Ids(deck))
  {
    var a := Ids(RemoveAt(deck, i));
    var b := RemoveAt(Ids(deck), i);
    assert |a| == |b|;
    forall k | 0 <= k < |a|
      ensures a[k] == b[k]
    {
      if k < i {
        assert a[k] == deck[k].id;
      } else {
        assert a[k] == deck[k + 1].id;
      }
    }
    assert a == b;
  }

  /** The target deck after a transfer carries the old ids in the old
      slots, followed by the id of the transferred card. */
  lemma TransferTargetIds(fromDeck: seq<Card>, toDeck: seq<Card>, cardToTransfer: Card, myCard: Card, i: nat)
    requires IsFirstIndexOf(fromDeck, cardToTransfer.id, i)
    ensures Ids(UpdateValueTransfer(fromDeck, toDeck, cardToTransfer, myCard).updatedToDeck)
            == Ids(toDeck) + [fromDeck[i].id]
  {
  }

  /** A transfer never creates, loses or renames an id: the multiset of ids
      held by the two decks together is the same before and after. */
  lemma TransferConservesIds(fromDeck: seq<Card>, toDeck: seq<Card>, cardToTransfer: Card, myCard: Card)
    ensures var r := UpdateValueTransfer(fromDeck, toDeck, cardToTransfer, myCard);
            multiset(Ids(r.updatedFromDeck)) + multiset(Ids(r.updatedToDeck))
            == multiset(Ids(fromDeck)) + multiset(Ids(toDeck))
  {
    var found := FindById(fromDeck, cardToTransfer.id);
    if found.Some? {
      var i := found.value;
      var r := UpdateValueTransfer(fromDeck, toDeck, cardToTransfer, myCard);
      assert r.updatedFromDeck == RemoveAt(fromDeck, i);
      IdsRemoveAt(fromDeck, i);
      TransferTargetIds(fromDeck, toDeck, cardToTransfer, myCard, i);
    }
  }

  /** Where position `p` of the two decks after a transfer of source index
      `i` came from in the two decks before it: slots before `i` stay, later
      source slots and all target slots move down by one, and the appended
      card comes from `i`. */
  function Origin(i: nat, total: nat, p: nat): nat
  {
    if p < i then p else if p + 1 < total then p + 1 else i
  }

  lemma TransferOrigin(fromDeck: seq<Card>, toDeck: seq<Card>, cardToTransfer: Card, myCard: Card, i: nat, p: nat)
    requires IsFirstIndexOf(fromDeck, cardToTransfer.id, i)
    requires p < |fromDeck| + |toDeck|
    ensures var r := UpdateValueTransfer(fromDeck, toDeck, cardToTransfer, myCard);
            (r.updatedFromDeck + r.updatedToDeck)[p].id
            == (fromDeck + toDeck)[Origin(i, |fromDeck| + |toDeck|, p)].id
  {
  }

  /** When every id is unique across both decks, it still is after a
      transfer. */
  lemma TransferKeepsIdsDistinct(fromDeck: seq<Card>, toDeck: seq<Card>, cardToTransfer: Card, myCard: Card)
    requires DistinctIds(fromDeck + toDeck)
    ensures var r := UpdateValueTransfer(fromDeck, toDeck, cardToTransfer, myCard);
            DistinctIds(r.updatedFromDeck + r.updatedToDeck)
  {
    var found := FindById(fromDeck, cardToTransfer.id);
    if found.Some? {
      var i := found.value;
      var r := UpdateValueTransfer(fromDeck, toDeck, cardToTransfer, myCard);
      var total := |fromDeck| + |toDeck|;
      var after := r.updatedFromDeck + r.updatedToDeck;
      forall p, q | 0 <= p < q < |after|
        ensures after[p].id != after[q].id
      {
        TransferOrigin(fromDeck, toDeck, cardToTransfer, myCard, i, p);
        TransferOrigin(fromDeck, toDeck, cardToTransfer, myCard, i, q);
        assert Origin(i, total, p) != Origin(i, total, q);
      }
    }
  }

  /** The order in which `getInitialDeck` deals the elements. */
  const InitialOrder: seq<Element> := [Metal, Wood, Water, Fire, Earth]

  /** Cards dealt per element. */
  const CopiesPerElement: nat := 2

  /** The size of a fresh deck. */
  const InitialDeckSize: nat := |InitialOrder| * CopiesPerElement

  /** The id `${element}-${suffix}` of a dealt card. */
  function DealtId(e: Element, suffix: string): string
  {
    Tag(e) + "-" + suffix
  }

  /** Two cards per element, in the order given, all with one point; the
      random id suffixes come in as a parameter. */
  function Deal(elements: seq<Element>, suffixes: seq<string>): (deck: seq<Card>)
    requires |suffixes| == CopiesPerElement * |elements|
    ensures |deck| == |suffixes|
    ensures forall k | 0 <= k < |deck| ::
              deck[k] == Card(DealtId(elements[k / 2], suffixes[k]), elements[k / 2], 1)
  {
    if elements == [] then []
    else
      var e := elements[0];
      var rest := Deal(elements[1..], suffixes[2..]);
      var deck := [Card(DealtId(e, suffixes[0]), e, 1), Card(DealtId(e, suffixes[1]), e, 1)] + rest;
      assert forall k | 2 <= k < |deck| :: deck[k] == rest[k - 2] && (k - 2) / 2 == k / 2 - 1;
      deck
  }

  /** `getInitialDeck`: ten cards, two each of metal, wood, water, fire
      and earth in that order, every card at one point. */
  function InitialDeck(suffixes: seq<string>): (deck: seq<Card>)
    requires |suffixes| == InitialDeckSize
    ensures |deck| == 10
    ensures forall k | 0 <= k < |deck| ::
              && deck[k].element == InitialOrder[k / 2]
              && deck[k].point == 1
              && deck[k].id == DealtId(deck[k].element, suffixes[k])
  {
    Deal(InitialOrder, suffixes)
  }

  /** Different elements have tags that already differ in their first two
      letters. */
  lemma TagPrefixesDiffer(a: Element, b: Element)
    requires a != b
    ensures Tag(a)[..2] != Tag(b)[..2]
  {
    assert Tag(a)[..2] == TagStart(a);
    assert Tag(b)[..2] == TagStart(b);
  }

  /** The first two letters of each tag. */
  function TagStart(e: Element): string
  {
    match e
    case Metal => "me"
    case Wood => "wo"
    case Water => "wa"
    case Fire => "fi"
    case Earth => "ea"
  }

  lemma DealtIdsDiffer(a: Element, s: string, b: Element, t: string)
    requires a != b || s != t
    ensures DealtId(a, s) != DealtId(b, t)
  {
    if a != b {
      TagPrefixesDiffer(a, b);
      assert DealtId(a, s)[..2] == Tag(a)[..2];
      assert DealtId(b, t)[..2] == Tag(b)[..2];
    } else {
      var n := |Tag(a) + "-"|;
      assert DealtId(a, s)[n..] == s;
      assert DealtId(b, t)[n..] == t;
    }
  }

  /** No suffix is drawn twice. */
  predicate DistinctSuffixes(suffixes: seq<string>)
  {
    forall i, j | 0 <= i < j < |suffixes| :: suffixes[i] != suffixes[j]
  }

  /** With distinct random suffixes, a fresh deck has distinct ids. */
  lemma InitialDeckIdsDistinct(suffixes: seq<string>)
    requires |suffixes| == InitialDeckSize
    requires DistinctSuffixes(suffixes)
    ensures DistinctIds(InitialDeck(suffixes))
  {
    var deck := InitialDeck(suffixes);
    forall i, j | 0 <= i < j < |deck|
      ensures deck[i].id != deck[j].id
    {
      DealtIdsDiffer(deck[i].element, suffixes[i], deck[j].element, suffixes[j]);
    }
  }

  /** Two fresh decks dealt from twenty distinct suffixes share no id, and
      neither holds an id twice. */
  lemma FreshDecksIdsDistinct(ps: seq<string>, os: seq<string>)
    requires |ps| == InitialDeckSize && |os| == InitialDeckSize
    requires DistinctSuffixes(ps + os)
    ensures DistinctIds(InitialDeck(ps) + InitialDeck(os))
  {
    var both := InitialDeck(ps) + InitialDeck(os);
    var suffixes := ps + os;
    forall i, j | 0 <= i < j < |both|
      ensures both[i].id != both[j].id
    {
      assert both[i].id == DealtId(both[i].element, suffixes[i]);
      assert both[j].id == DealtId(both[j].element, suffixes[j]);
      DealtIdsDiffer(both[i].element, suffixes[i], both[j].element, suffixes[j]);
    }
  }

  /** Distinctness of ids does not depend on which deck comes first. */
  lemma DistinctIdsSwap(a: seq<Card>, b: seq<Card>)
    requires DistinctIds(a + b)
    ensures DistinctIds(b + a)
  {
    var ab := a + b;
    var ba := b + a;
    forall i, j | 0 <= i < j < |ba|
      ensures ba[i].id != ba[j].id
    {
      var si := if i < |b| then i + |a| else i - |b|;
      var sj := if j < |b| then j + |a| else j - |b|;
      assert ba[i] == ab[si] && ba[j] == ab[sj];
      if si < sj {
        assert ab[si].id != ab[sj].id;
      } else {
        assert ab[sj].id != ab[si].id;
      }
    }
  }
}
