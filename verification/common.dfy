/** Shared vocabulary of the model: an optional value (the source's `null`,
    `undefined` and "index -1"), the pair of decks a transfer returns, and
    removal of one element at an index (`splice(i, 1)`). */
module Common {

  datatype Option<+T> = None | Some(value: T)

  /** The `{ updatedFromDeck, updatedToDeck }` record both transfer
      functions return. */
  datatype DeckPair<T> = DeckPair(updatedFromDeck: seq<T>, updatedToDeck: seq<T>)

  /** The sequence without its element at index `i`; everything before `i`
      stays in place and everything after it moves down by one. */
  function RemoveAt<T>(s: seq<T>, i: nat): (r: seq<T>)
    requires i < |s|
    ensures |r| == |s| - 1
    ensures forall k | 0 <= k < i :: r[k] == s[k]
    ensures forall k | i <= k < |r| :: r[k] == s[k + 1]
    ensures multiset(r) + multiset{s[i]} == multiset(s)
  {
    assert s == s[..i] + [s[i]] + s[i + 1..];
    s[..i] + s[i + 1..]
  }
}
