/**
 * Ranks, suits and cards of the 32-card piquet deck, the identity key
 * `Card.hash`, the deck of `all_cards`, and a player's hand: a dictionary from
 * that key to the card (core/game.py:4-98, classes.py:4-83).
 */
module Cards {
  import opened Lists

  datatype Rank = Seven | Eight | Nine | Ten | Jack | Queen | King | Ace
  datatype Suit = Diamonds | Hearts | Spades | Clubs
  datatype Card = Card(rank: Rank, suit: Suit)

  /** `Rank.value`: the ordinal every comparison of cards uses. */
  function Value(r: Rank): (v: int) {
    match r
    case Seven => 7
    case Eight => 8
    case Nine => 9
    case Ten => 10
    case Jack => 11
    case Queen => 12
    case King => 13
    case Ace => 14
  }

  /** The `PIPS` table: what a card adds to a point. */
  function Pips(r: Rank): (v: int) {
    match r
    case Seven => 7
    case Eight => 8
    case Nine => 9
    case Ten => 10
    case Jack => 10
    case Queen => 10
    case King => 10
    case Ace => 11
  }

  /** `Rank` in declaration order, as `for r in Rank` visits it. */
  const RANKS: seq<Rank> := [Seven, Eight, Nine, Ten, Jack, Queen, King, Ace]

  /** `Suit.suits`. */
  const SUITS: seq<Suit> := [Diamonds, Hearts, Spades, Clubs]

  /** `Card.__lt__`: compares ranks only. */
  predicate Below(a: Card, b: Card) {
    Value(a.rank) < Value(b.rank)
  }

  /** `Card.__eq__`: compares ranks only. */
  predicate SameRank(a: Card, b: Card) {
    Value(a.rank) == Value(b.rank)
  }

  /** `Card.__sub__`: the signed distance between two ranks. */
  function Distance(a: Card, b: Card): (r: int) {
    Value(a.rank) - Value(b.rank)
  }

  function RankChar(r: Rank): (v: char) {
    match r
    case Seven => '7'
    case Eight => '8'
    case Nine => '9'
    case Ten => 'T'
    case Jack => 'J'
    case Queen => 'Q'
    case King => 'K'
    case Ace => 'A'
  }

  function SuitChar(s: Suit): (r: char) {
    match s
    case Diamonds => 'D'
    case Hearts => 'H'
    case Spades => 'S'
    case Clubs => 'C'
  }

  /** `Card.hash`: the two-character key under which a hand stores the card. */
  function Hash(c: Card): (r: string) {
    [RankChar(c.rank), SuitChar(c.suit)]
  }

  /** The key identifies the card: rank and suit together, unlike `__eq__`. */
  lemma HashInjective(a: Card, b: Card)
    ensures Hash(a) == Hash(b) <==> a == b
  {
    if Hash(a) == Hash(b) {
      assert Hash(a)[0] == Hash(b)[0] && Hash(a)[1] == Hash(b)[1];
    }
  }

  function RankIndex(r: Rank): (v: nat) {
    Value(r) - 7
  }

  function SuitIndex(s: Suit): (r: nat) {
    match s
    case Diamonds => 0
    case Hearts => 1
    case Spades => 2
    case Clubs => 3
  }

  /** `all_cards()`: every suit in `Suit.suits` order, each one in rank order. */
  function AllCards(): (r: seq<Card>) {
    seq(32, i requires 0 <= i < 32 => Card(RANKS[i % 8], SUITS[i / 8]))
  }

  lemma {:induction false} AllCardsComplete()
    ensures |AllCards()| == 32
    ensures NoDup(AllCards())
    ensures forall c: Card :: c in AllCards()
  {
    var all := AllCards();
    assert forall k :: 0 <= k < 8 ==> RankIndex(RANKS[k]) == k;
    assert forall k :: 0 <= k < 4 ==> SuitIndex(SUITS[k]) == k;
    forall c: Card ensures c in all {
      var i := SuitIndex(c.suit) * 8 + RankIndex(c.rank);
      assert RANKS[RankIndex(c.rank)] == c.rank;
      assert SUITS[SuitIndex(c.suit)] == c.suit;
      assert i % 8 == RankIndex(c.rank) && i / 8 == SuitIndex(c.suit);
      assert all[i] == c;
    }
    forall i | 0 <= i < 32
      ensures RankIndex(all[i].rank) == i % 8 && SuitIndex(all[i].suit) == i / 8
    {
    }
    forall i, j | 0 <= i < j < 32 ensures all[i] != all[j] {
      assert i == (i / 8) * 8 + i % 8 && j == (j / 8) * 8 + j % 8;
    }
  }

  /** What `shuffle` may leave in a deck built from `all_cards()`: any reordering of it. */
  ghost predicate IsShuffled(deck: seq<Card>) {
    |deck| == 32 && multiset(deck) == multiset(AllCards())
  }

  lemma ShuffledDeck(deck: seq<Card>)
    requires IsShuffled(deck)
    ensures |deck| == 32 && NoDup(deck)
    ensures forall c: Card :: c in deck
  {
    AllCardsComplete();
    NoDupPermutation(deck, AllCards());
    forall c: Card ensures c in deck {
      assert c in AllCards();
      assert c in multiset(AllCards());
    }
  }

  /** `Player.hand`: a dictionary from `Card.hash` to the card. */
  type Hand = map<string, Card>

  /** Every card sits under its own key, as `draw` puts it there. */
  ghost predicate WellKeyed(h: Hand) {
    forall k :: k in h ==> Hash(h[k]) == k
  }

  lemma HeldIff(h: Hand, c: Card)
    requires WellKeyed(h)
    ensures c in h.Values <==> Hash(c) in h
    ensures Hash(c) in h ==> h[Hash(c)] == c
  {
    if c in h.Values {
      var k :| k in h && h[k] == c;
    }
    if Hash(c) in h {
      HashInjective(h[Hash(c)], c);
    }
  }

  lemma HeldAfterDraw(h: Hand, c: Card)
    requires WellKeyed(h)
    ensures WellKeyed(h[Hash(c) := c])
    ensures (h[Hash(c) := c]).Values == h.Values + {c}
  {
    var h' := h[Hash(c) := c];
    forall d | d in h.Values ensures d in h'.Values {
      var k :| k in h && h[k] == d;
      if k == Hash(c) { HashInjective(d, c); }
      assert h'[k] == d;
    }
    forall d | d in h'.Values ensures d in h.Values + {c} {
      var k :| k in h' && h'[k] == d;
      if k != Hash(c) {
        assert h[k] == d;
      }
    }
    assert c in h'.Values by {
      assert h'[Hash(c)] == c;
    }
  }

  lemma HeldAfterRemove(h: Hand, c: Card)
    requires WellKeyed(h)
    ensures WellKeyed(h - {Hash(c)})
    ensures (h - {Hash(c)}).Values == h.Values - {c}
  {
    var h' := h - {Hash(c)};
    forall d | d in h.Values - {c} ensures d in h'.Values {
      var k :| k in h && h[k] == d;
      if k == Hash(c) { HashInjective(d, c); }
      assert h'[k] == d;
    }
    forall d | d in h'.Values ensures d in h.Values - {c} {
      var k :| k in h' && h'[k] == d;
      HashInjective(d, c);
    }
  }

  /**
   * `Player.draw(cards)` of classes.py (which core/game.py calls but does not
   * define): each card in turn is stored under its key.
   */
  function DrawAll(h: Hand, cards: seq<Card>): (r: Hand)
    decreases |cards|
  {
    if cards == [] then h
    else
      var last := cards[|cards| - 1];
      DrawAll(h, cards[..|cards| - 1])[Hash(last) := last]
  }

  /** Drawing adds exactly the drawn cards, each under its key. */
  lemma {:induction false} DrawAllHolds(h: Hand, cards: seq<Card>)
    requires WellKeyed(h)
    ensures WellKeyed(DrawAll(h, cards))
    ensures DrawAll(h, cards).Values == h.Values + set c | c in cards
    ensures DrawAll(h, cards).Keys == h.Keys + set c | c in cards :: Hash(c)
    decreases |cards|
  {
    if cards != [] {
      var front, last := cards[..|cards| - 1], cards[|cards| - 1];
      assert cards == front + [last];
      DrawAllHolds(h, front);
      HeldAfterDraw(DrawAll(h, front), last);
      assert (set c | c in cards) == (set c | c in front) + {last};
      assert (set c | c in cards :: Hash(c)) == (set c | c in front :: Hash(c)) + {Hash(last)};
    }
  }

  lemma DrawNewCard(h: Hand, c: Card)
    requires WellKeyed(h) && c !in h.Values
    ensures |h[Hash(c) := c]| == |h| + 1
  {
    HeldIff(h, c);
    assert (h[Hash(c) := c]).Keys == h.Keys + {Hash(c)};
  }

  /** Drawing distinct new cards grows the hand by exactly their number. */
  lemma {:induction false} DrawAllSize(h: Hand, cards: seq<Card>)
    requires WellKeyed(h) && NoDup(cards)
    requires forall i :: 0 <= i < |cards| ==> cards[i] !in h.Values
    ensures |DrawAll(h, cards)| == |h| + |cards|
    decreases |cards|
  {
    if cards != [] {
      var front, last := cards[..|cards| - 1], cards[|cards| - 1];
      DrawAllSize(h, front);
      DrawAllHolds(h, front);
      assert last !in set c | c in front;
      DrawNewCard(DrawAll(h, front), last);
    }
  }

  /** The hand is keyed by `Card.hash`, the deck holds no card twice, and none of its cards is in the hand. */
  ghost predicate Apart(h: Hand, deck: seq<Card>) {
    WellKeyed(h) && NoDup(deck) && forall i :: 0 <= i < |deck| ==> deck[i] !in h.Values
  }

  /** Drawing the top card moves it from the deck into the hand. */
  lemma DrawTopApart(h: Hand, deck: seq<Card>)
    requires Apart(h, deck) && deck != []
    ensures var top := deck[|deck| - 1];
      Apart(DrawAll(h, [top]), deck[..|deck| - 1]) && |DrawAll(h, [top])| == |h| + 1 &&
      DrawAll(h, [top]).Values == h.Values + {top}
  {
    var top := deck[|deck| - 1];
    var rest := deck[..|deck| - 1];
    assert DrawAll(h, [top]) == h[Hash(top) := top];
    HeldAfterDraw(h, top);
    DrawNewCard(h, top);
    forall i | 0 <= i < |rest| ensures rest[i] !in DrawAll(h, [top]).Values {
      assert rest[i] == deck[i] && deck[i] != top;
    }
  }
}
