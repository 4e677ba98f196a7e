/**
 * The earlier object model of classes.py: a `Deck` object, `Player` objects
 * that hold their own hand, discards and score, and `Deal` and `Partie`
 * objects that only deal, exchange and alternate the elder hand. Its
 * declarations are tuples rather than `Result`s, and its sequences and sets
 * are sorted shortest first.
 */
module Classic {
  import opened Wrappers
  import opened Lists
  import opened Cards
  import opened Hands
  import opened Rules

  /* ---------------------------------------------------------------- deck */

  /** `[Card(r, s) for r in Rank for s in Suit.suits]`: rank by rank, each in suit order. */
  function ClassicCards(): (r: seq<Card>) {
    seq(32, i requires 0 <= i < 32 => Card(RANKS[i / 4], SUITS[i % 4]))
  }

  /** The rank-major deck holds the same 32 distinct cards as `all_cards()`. */
  lemma {:induction false} ClassicCardsAreAllCards()
    ensures |ClassicCards()| == 32 && NoDup(ClassicCards())
    ensures multiset(ClassicCards()) == multiset(AllCards())
  {
    var deck := ClassicCards();
    assert forall k :: 0 <= k < 8 ==> RankIndex(RANKS[k]) == k;
    assert forall k :: 0 <= k < 4 ==> SuitIndex(SUITS[k]) == k;
    forall c: Card ensures c in deck {
      var i := RankIndex(c.rank) * 4 + SuitIndex(c.suit);
      assert RANKS[RankIndex(c.rank)] == c.rank;
      assert SUITS[SuitIndex(c.suit)] == c.suit;
      assert i / 4 == RankIndex(c.rank) && i % 4 == SuitIndex(c.suit);
      assert deck[i] == c;
    }
    forall i | 0 <= i < 32
      ensures RankIndex(deck[i].rank) == i / 4 && SuitIndex(deck[i].suit) == i % 4
    {
    }
    forall i, j | 0 <= i < j < 32 ensures deck[i] != deck[j] {
      assert i == (i / 4) * 4 + i % 4 && j == (j / 4) * 4 + j % 4;
    }
    AllCardsComplete();
    NoDupSameElements(deck, AllCards());
  }

  /** A shuffle of the rank-major deck is a shuffle of `all_cards()`, and the other way round. */
  lemma ClassicShuffle(shuffled: seq<Card>)
    ensures (|shuffled| == 32 && multiset(shuffled) == multiset(ClassicCards())) <==> IsShuffled(shuffled)
  {
    ClassicCardsAreAllCards();
  }

  /** `Deck`: the stock, its last card on top. */
  class Deck {
    var cards: seq<Card>

    /** `Deck()`, with `shuffled` as the order `shuffle` left the new cards in. */
    constructor(shuffled: seq<Card>)
      requires |shuffled| == 32 && multiset(shuffled) == multiset(ClassicCards())
      ensures cards == shuffled
    {
      cards := shuffled;
    }

    /** `Deck.pop`: the last card, or nothing (an `IndexError`) when the deck is empty. */
    method Pop() returns (top: Option<Card>)
      modifies this
      ensures old(cards) == [] ==> top == None && cards == []
      ensures old(cards) != [] ==> top == Some(old(cards)[|old(cards)| - 1]) && cards == old(cards)[..|old(cards)| - 1]
    {
      if cards == [] {
        top := None;
      } else {
        top := Some(cards[|cards| - 1]);
        cards := cards[..|cards| - 1];
      }
    }
  }

  /* -------------------------------------------------------------- player */

  /** Where `Player.discard` got to: the hand and discards so far, and the card it failed on. */
  datatype Discarding = Discarding(hand: Hand, discards: seq<Card>, error: Option<Error>)

  /**
   * `Player.discard(cards)`: each card in turn is deleted from the hand and
   * appended to the discards; the first card not in the hand raises, leaving
   * the cards before it discarded.
   */
  function DiscardAll(h: Hand, discards: seq<Card>, cards: seq<Card>): (r: Discarding)
    decreases |cards|
  {
    if cards == [] then Discarding(h, discards, None)
    else if Hash(cards[0]) !in h then Discarding(h, discards, Some(NotHeld(cards[0])))
    else DiscardAll(h - {Hash(cards[0])}, discards + [cards[0]], cards[1..])
  }

  /** The cards are distinct and all in the hand. */
  ghost predicate DistinctHeld(h: Hand, cards: seq<Card>) {
    NoDup(cards) && forall i :: 0 <= i < |cards| ==> cards[i] in h.Values
  }

  /** Past a held first card, the rest must be distinct and held once that card is gone. */
  lemma DistinctHeldStep(h: Hand, cards: seq<Card>)
    requires WellKeyed(h) && cards != [] && cards[0] in h.Values
    ensures DistinctHeld(h, cards) <==> DistinctHeld(h - {Hash(cards[0])}, cards[1..])
  {
    var c, tail, h1 := cards[0], cards[1..], h - {Hash(cards[0])};
    HeldAfterRemove(h, c);
    if DistinctHeld(h, cards) {
      forall i, j | 0 <= i < j < |tail| ensures tail[i] != tail[j] {
        assert tail[i] == cards[i + 1] && tail[j] == cards[j + 1];
      }
      forall i | 0 <= i < |tail| ensures tail[i] in h1.Values {
        assert tail[i] == cards[i + 1] && cards[0] != cards[i + 1];
      }
    }
    if DistinctHeld(h1, tail) {
      forall i, j | 0 <= i < j < |cards| ensures cards[i] != cards[j] {
        assert cards[j] == tail[j - 1];
        if i > 0 { assert cards[i] == tail[i - 1]; }
      }
      forall i | 0 <= i < |cards| ensures cards[i] in h.Values {
        if i > 0 { assert cards[i] == tail[i - 1]; }
      }
    }
  }

  /** Discarding a held card leaves a well-keyed hand one card smaller. */
  lemma DiscardOne(h: Hand, c: Card)
    requires WellKeyed(h) && Hash(c) in h
    ensures WellKeyed(h - {Hash(c)}) && |h - {Hash(c)}| == |h| - 1
    ensures c in h.Values && (h - {Hash(c)}).Values == h.Values - {c}
  {
    HeldIff(h, c);
    HeldAfterRemove(h, c);
    assert (h - {Hash(c)}).Keys == h.Keys - {Hash(c)};
  }

  /** Discarding keeps the hand well keyed and only ever removes cards. */
  lemma {:induction false} DiscardAllKeeps(h: Hand, discards: seq<Card>, cards: seq<Card>)
    requires WellKeyed(h)
    ensures WellKeyed(DiscardAll(h, discards, cards).hand) && DiscardAll(h, discards, cards).hand.Values <= h.Values
    decreases |cards|
  {
    if cards != [] && Hash(cards[0]) in h {
      DiscardOne(h, cards[0]);
      DiscardAllKeeps(h - {Hash(cards[0])}, discards + [cards[0]], cards[1..]);
    }
  }

  lemma {:induction false} DiscardAllSucceeds(h: Hand, discards: seq<Card>, cards: seq<Card>)
    requires WellKeyed(h)
    ensures DiscardAll(h, discards, cards).error == None <==> DistinctHeld(h, cards)
    decreases |cards|
  {
    if cards != [] {
      HeldIff(h, cards[0]);
      if Hash(cards[0]) in h {
        DiscardOne(h, cards[0]);
        DistinctHeldStep(h, cards);
        DiscardAllSucceeds(h - {Hash(cards[0])}, discards + [cards[0]], cards[1..]);
      }
    }
  }

  lemma {:induction false} DiscardAllDone(h: Hand, discards: seq<Card>, cards: seq<Card>)
    requires WellKeyed(h) && DiscardAll(h, discards, cards).error == None
    ensures var r := DiscardAll(h, discards, cards);
      r.discards == discards + cards && |r.hand| == |h| - |cards|
    decreases |cards|
  {
    if cards != [] {
      var c, tail := cards[0], cards[1..];
      DiscardOne(h, c);
      DiscardAllDone(h - {Hash(c)}, discards + [c], tail);
      AppendFront(discards, cards);
    }
  }

  lemma {:induction false} DiscardAllRemoves(h: Hand, discards: seq<Card>, cards: seq<Card>)
    requires WellKeyed(h) && DiscardAll(h, discards, cards).error == None
    ensures DiscardAll(h, discards, cards).hand.Values == h.Values - Elements(cards)
    decreases |cards|
  {
    if cards == [] {
      assert Elements(cards) == {};
    } else {
      var c, tail := cards[0], cards[1..];
      var h1 := h - {Hash(c)};
      DiscardOne(h, c);
      DiscardAllRemoves(h1, discards + [c], tail);
      assert DiscardAll(h, discards, cards) == DiscardAll(h1, discards + [c], tail);
      MinusCons(h.Values, cards);
    }
  }

  /** A failed discard names the first card not held; the cards before it are discarded. */
  lemma {:induction false} DiscardAllStops(h: Hand, discards: seq<Card>, cards: seq<Card>)
    requires DiscardAll(h, discards, cards).error != None
    ensures var r := DiscardAll(h, discards, cards);
      var k := |r.discards| - |discards|;
      0 <= k < |cards| && r.error == Some(NotHeld(cards[k])) && r.discards == discards + cards[..k]
    decreases |cards|
  {
    var c, tail := cards[0], cards[1..];
    if Hash(c) !in h {
      assert discards + cards[..0] == discards;
    } else {
      var r := DiscardAll(h - {Hash(c)}, discards + [c], tail);
      assert DiscardAll(h, discards, cards) == r;
      DiscardAllStops(h - {Hash(c)}, discards + [c], tail);
      var k := |r.discards| - |discards + [c]|;
      assert r.discards == discards + ([c] + tail[..k]);
      assert cards[k + 1] == tail[k];
      assert cards[..k + 1] == [c] + tail[..k];
    }
  }

  /**
   * Discarding succeeds exactly when the cards are distinct and all held; it
   * then removes exactly those cards and appends them in order. On failure
   * it stops at one of the cards, with the ones before it discarded.
   */
  lemma DiscardAllSpec(h: Hand, discards: seq<Card>, cards: seq<Card>)
    requires WellKeyed(h)
    ensures var r := DiscardAll(h, discards, cards);
      WellKeyed(r.hand) && r.hand.Values <= h.Values &&
      (r.error == None <==> DistinctHeld(h, cards)) &&
      (r.error == None ==>
        r.discards == discards + cards && |r.hand| == |h| - |cards| && r.hand.Values == h.Values - set c | c in cards) &&
      (r.error != None ==>
        exists k :: 0 <= k < |cards| && r.error == Some(NotHeld(cards[k])) && r.discards == discards + cards[..k])
  {
    DiscardAllKeeps(h, discards, cards);
    DiscardAllSucceeds(h, discards, cards);
    if DiscardAll(h, discards, cards).error == None {
      DiscardAllDone(h, discards, cards);
      DiscardAllRemoves(h, discards, cards);
    } else {
      DiscardAllStops(h, discards, cards);
      var k := |DiscardAll(h, discards, cards).discards| - |discards|;
      assert 0 <= k < |cards| && DiscardAll(h, discards, cards).error == Some(NotHeld(cards[k]));
    }
  }

  /** `Player(name)` and the scores it keeps; the name is only displayed. */
  class Player {
    var hand: Hand
    var discards: seq<Card>
    var score: int
    var dealScore: Option<int>

    constructor()
      ensures hand == map[] && discards == [] && score == 0 && dealScore == None
    {
      hand := map[];
      discards := [];
      score := 0;
      dealScore := None;
    }

    /** `Player.draw(cards)`: each card is stored under its key. */
    method Draw(cards: seq<Card>)
      modifies this
      ensures hand == DrawAll(old(hand), cards)
      ensures discards == old(discards) && score == old(score) && dealScore == old(dealScore)
    {
      for i := 0 to |cards|
        invariant hand == DrawAll(old(hand), cards[..i])
        invariant discards == old(discards) && score == old(score) && dealScore == old(dealScore)
      {
        var card := cards[i];
        assert cards[..i + 1][..i] == cards[..i];
        hand := hand[Hash(card) := card];
      }
      assert cards[..|cards|] == cards;
    }

    /** `Player.discard(cards)`, the `KeyError` of a card not held returned as the error. */
    method Discard(cards: seq<Card>) returns (error: Option<Error>)
      modifies this
      ensures Discarding(hand, discards, error) == DiscardAll(old(hand), old(discards), cards)
      ensures score == old(score) && dealScore == old(dealScore)
    {
      for i := 0 to |cards|
        invariant DiscardAll(old(hand), old(discards), cards) == DiscardAll(hand, discards, cards[i..])
        invariant score == old(score) && dealScore == old(dealScore)
      {
        var card := cards[i];
        assert cards[i..][1..] == cards[i + 1..];
        if Hash(card) !in hand {
          return Some(NotHeld(card));
        }
        hand := hand - {Hash(card)};
        discards := discards + [card];
      }
      error := None;
    }
  }

  /* -------------------------------------------------------- declarations */

  /** Python's `list.index`: the first position of x. */
  function IndexOf(xs: seq<int>, x: int): (i: nat)
    requires x in xs
    ensures i < |xs| && xs[i] == x && x !in xs[..i]
  {
    if xs[0] == x then 0
    else
      var rest := IndexOf(xs[1..], x);
      assert xs[..rest + 1] == [xs[0]] + xs[1..][..rest];
      rest + 1
  }

  /**
   * `Player.point`: nothing below four cards in a suit, otherwise the length
   * of the suit the largest pip sum is first found in, and that sum.
   */
  function PointTuple(h: Hand): (r: Option<(int, int)>) {
    var suits := SuitsOf(h);
    var maxLength := |suits[3]|;
    if maxLength < 4 then None
    else
      var pointSuits := PointSuits(h);
      var pips := PipSums(pointSuits);
      var maxPoints := MaxOf(pips);
      var pointSuit := pointSuits[IndexOf(pips, maxPoints)];
      Some((|pointSuit|, maxPoints))
  }

  /**
   * The tuple point is the `Result` point of core/game.py: none exactly when
   * no suit has four cards, otherwise the longest suit's length and the same
   * pip total.
   */
  lemma PointTupleAgrees(h: Hand)
    ensures PointTuple(h) == None <==> LongestSuit(h) < 4
    ensures PointTuple(h) == None <==> PointOf(h).score == 0
    ensures PointTuple(h) != None ==>
      PointTuple(h).value.0 == LongestSuit(h) &&
      PointTuple(h).value == (PointOf(h).score, PointOf(h).value.total)
  {
    LastSuitIsLongest(h);
    var suits := SuitsOf(h);
    if |suits[3]| >= 4 {
      var pointSuits := PointSuits(h);
      var pips := PipSums(pointSuits);
      var i := IndexOf(pips, MaxOf(pips));
      assert |pointSuits[i]| == |suits[3]|;
      assert PointTuple(h) == Some((|suits[3]|, MaxOf(pips)));
    }
  }

  /** The sort key of classes.py:167 and :183: shortest first, then highest lowest card. */
  function AscendingKey(g: seq<Card>): (r: Key) {
    if g == [] then Key(0, 0) else Key(|g|, -Value(g[0].rank))
  }

  /** `(len(groups[0]) if groups else 0, groups)`. */
  function FirstLength(groups: seq<seq<Card>>): (int, seq<seq<Card>>) {
    (if groups == [] then 0 else |groups[0]|, groups)
  }

  /** `Player.sequences`: the longest run of each suit, three cards or more, sorted shortest first. */
  function SequencesTuple(h: Hand): (int, seq<seq<Card>>) {
    FirstLength(SortBy(Filter(RunsOf(SuitsOf(h)), LongEnough), AscendingKey))
  }

  /** `Player.sequences` as the source computes it: the scan of each suit, then the sort. */
  method ComputeSequencesTuple(h: Hand) returns (score: int, sequences: seq<seq<Card>>)
    ensures (score, sequences) == SequencesTuple(h)
  {
    var runs := ScanSuits(SuitsOf(h));
    sequences := SortBy(Filter(runs, LongEnough), AscendingKey);
    score := if sequences == [] then 0 else |sequences[0]|;
  }

  /** `Player.sets`: the held cards of each rank from Ace down to Ten, three or more, sorted shortest first. */
  function SetsTuple(h: Hand): (int, seq<seq<Card>>) {
    FirstLength(SortBy(Filter(SetGroups(h), LongEnough), AscendingKey))
  }

  /**
   * Sorting the same groups shortest first and longest first: the same
   * groups either way, and the first length of the ascending sort is the
   * shortest, which reaches the longest only when all the groups are as long.
   */
  lemma ShortestFirst(kept: seq<seq<Card>>)
    requires forall k :: 0 <= k < |kept| ==> LongEnough(kept[k])
    ensures var (low, asc) := FirstLength(SortBy(kept, AscendingKey));
      var desc := SortBy(kept, GroupKey);
      var high := if desc == [] then 0 else |desc[0]|;
      multiset(asc) == multiset(desc) &&
      (forall k :: 0 <= k < |asc| ==> low <= |asc[k]| <= high) &&
      low <= high &&
      (low == high <==> forall k :: 0 <= k < |asc| ==> |asc[k]| == high)
  {
    var asc := SortBy(kept, AscendingKey);
    var desc := SortBy(kept, GroupKey);
    if asc != [] {
      forall k | 0 <= k < |asc| ensures |asc[0]| <= |asc[k]| <= |desc[0]| {
        assert asc[k] in multiset(kept);
        var m :| 0 <= m < |kept| && kept[m] == asc[k];
        if k > 0 {
          assert KeyLe(AscendingKey(asc[0]), AscendingKey(asc[k]));
        }
        assert asc[k] in multiset(desc);
        var n :| 0 <= n < |desc| && desc[n] == asc[k];
        assert desc[n] in multiset(kept);
        var m' :| 0 <= m' < |kept| && kept[m'] == desc[n];
        if n > 0 {
          assert desc[0] in multiset(kept);
          var m0 :| 0 <= m0 < |kept| && kept[m0] == desc[0];
          assert KeyLe(GroupKey(desc[0]), GroupKey(desc[n]));
        }
      }
      assert desc[0] in multiset(asc);
    }
  }

  /**
   * The sequences of classes.py as written: the same runs core/game.py
   * declares, but scored by the shortest, which is below the longest
   * whenever the declared runs differ in length.
   */
  lemma SequencesTupleShortest(h: Hand)
    ensures var (score, sequences) := SequencesTuple(h);
      multiset(sequences) == multiset(DeclaredSequences(h)) &&
      (forall k :: 0 <= k < |sequences| ==> score <= |sequences[k]|) &&
      score <= SequencesOf(h).score &&
      (score == SequencesOf(h).score <==> forall k :: 0 <= k < |sequences| ==> |sequences[k]| == SequencesOf(h).score)
  {
    var kept := Filter(RunsOf(SuitsOf(h)), LongEnough);
    assert DeclaredSequences(h) == SortBy(kept, GroupKey);
    assert SequencesTuple(h) == FirstLength(SortBy(kept, AscendingKey));
    SequencesScore(h);
    ShortestFirst(kept);
  }

  /**
   * The sets of classes.py as written: the same groups core/game.py declares,
   * scored by the smallest, so a quatorze held with a trio scores 3.
   */
  lemma SetsTupleShortest(h: Hand)
    ensures var (score, sets) := SetsTuple(h);
      multiset(sets) == multiset(DeclaredSets(h)) &&
      (forall k :: 0 <= k < |sets| ==> score <= |sets[k]|) &&
      score <= SetsOf(h).score &&
      (score == SetsOf(h).score <==> forall k :: 0 <= k < |sets| ==> |sets[k]| == SetsOf(h).score)
  {
    var kept := Filter(SetGroups(h), LongEnough);
    ShortestFirst(kept);
  }

  /* ---------------------------------------------------------------- deal */

  /** A deal's cards seen through `Rules`: the elder as `First`, the younger as `Second`. */
  function Table(elderHand: Hand, youngerHand: Hand, deck: seq<Card>): (r: DealState) {
    DealState(PerPlayer(elderHand, youngerHand), deck, PerPlayer(0, 0), PerPlayer(0, 0), PerPlayer([], []), None, None)
  }

  /** Dealing a shuffled deck to two empty hands leaves twelve cards each and eight in the deck. */
  lemma DealToEmptyHands(deck: seq<Card>)
    requires IsShuffled(deck)
    ensures var r := DealRounds(Table(map[], map[], deck), First, 12);
      Wf(r) && Covers(r) && |r.hands.Get(First)| == 12 && |r.hands.Get(Second)| == 12 && |r.deck| == 8
  {
    assert Table(map[], map[], deck) == Fresh(deck);
    FreshSpec(deck);
    DealRoundsSpec(Fresh(deck), First, 12);
  }

  /** Where `Player.draw([deck.pop()])`, repeated, got to: the hand, the deck, and `IndexError`. */
  datatype Drawing = Drawing(hand: Hand, deck: seq<Card>, error: Option<Error>)

  /** n draws of the top card, stopping when the deck runs out. */
  function DrawEach(h: Hand, deck: seq<Card>, n: nat): (r: Drawing)
    decreases n
  {
    if n == 0 then Drawing(h, deck, None)
    else if deck == [] then Drawing(h, deck, Some(EmptyDeck))
    else DrawEach(DrawAll(h, [deck[|deck| - 1]]), deck[..|deck| - 1], n - 1)
  }

  /** Drawing n new cards succeeds exactly when the deck holds at least n; the hand grows by n and the deck loses its top n. */
  lemma DrawEachSpec(h: Hand, deck: seq<Card>, n: nat)
    requires Apart(h, deck)
    ensures var r := DrawEach(h, deck, n);
      (r.error == None <==> n <= |deck|) &&
      (r.error == None ==> r.deck == deck[..|deck| - n] && |r.hand| == |h| + n && WellKeyed(r.hand)) &&
      (r.error != None ==> r.error == Some(EmptyDeck) && r.deck == [] && |r.hand| == |h| + |deck|)
  {
    DrawEachDeck(h, deck, n);
    DrawEachSize(h, deck, n);
  }

  /** n draws fail exactly when the deck runs out, and otherwise take its top n cards. */
  lemma {:induction false} DrawEachDeck(h: Hand, deck: seq<Card>, n: nat)
    ensures var r := DrawEach(h, deck, n);
      (r.error == None <==> n <= |deck|) &&
      (r.error == None ==> r.deck == deck[..|deck| - n]) &&
      (r.error != None ==> r.error == Some(EmptyDeck) && r.deck == [])
    decreases n
  {
    if n == 0 {
      assert deck[..|deck|] == deck;
    } else if deck != [] {
      var top := deck[|deck| - 1];
      var rest := deck[..|deck| - 1];
      DrawEachDeck(DrawAll(h, [top]), rest, n - 1);
      assert DrawEach(h, deck, n) == DrawEach(DrawAll(h, [top]), rest, n - 1);
      if n <= |deck| {
        assert deck[..|deck| - n] == rest[..|rest| - (n - 1)];
      }
    }
  }

  /** n draws of new cards grow the hand by one card per draw until the deck runs out. */
  lemma {:induction false} DrawEachSize(h: Hand, deck: seq<Card>, n: nat)
    requires Apart(h, deck)
    ensures var r := DrawEach(h, deck, n);
      |r.hand| == |h| + (if n <= |deck| then n else |deck|) && WellKeyed(r.hand)
    decreases n
  {
    if n > 0 && deck != [] {
      var top := deck[|deck| - 1];
      var rest := deck[..|deck| - 1];
      var h1 := DrawAll(h, [top]);
      DrawTopApart(h, deck);
      DrawEachSize(h1, rest, n - 1);
      var r := DrawEach(h1, rest, n - 1);
      assert DrawEach(h, deck, n) == r;
      assert |r.hand| == |h1| + (if n - 1 <= |rest| then n - 1 else |rest|) && |h1| == |h| + 1;
    }
  }

  /** n draws from a deck holding at least n cards add exactly its top n cards to the hand. */
  lemma {:induction false} DrawEachHand(h: Hand, deck: seq<Card>, n: nat)
    requires WellKeyed(h) && n <= |deck|
    ensures DrawEach(h, deck, n).hand.Values == h.Values + Elements(deck[|deck| - n..])
    decreases n
  {
    if n == 0 {
      assert deck[|deck|..] == [];
      assert Elements(deck[|deck|..]) == {};
    } else {
      var top := deck[|deck| - 1];
      var rest := deck[..|deck| - 1];
      DrawOneOfEach(h, deck, n);
      DrawEachHand(DrawAll(h, [top]), rest, n - 1);
      assert DrawEach(h, deck, n) == DrawEach(DrawAll(h, [top]), rest, n - 1);
    }
  }

  /** The first of n draws: the top card joins the hand, and the rest come from below it. */
  lemma DrawOneOfEach(h: Hand, deck: seq<Card>, n: nat)
    requires WellKeyed(h) && 0 < n <= |deck|
    ensures var top, rest := deck[|deck| - 1], deck[..|deck| - 1];
      var h1 := DrawAll(h, [top]);
      WellKeyed(h1) && h.Values + Elements(deck[|deck| - n..]) == h1.Values + Elements(rest[|rest| - (n - 1)..])
  {
    var top := deck[|deck| - 1];
    var rest := deck[..|deck| - 1];
    assert DrawAll(h, [top]) == h[Hash(top) := top];
    HeldAfterDraw(h, top);
    var drawn := rest[|rest| - (n - 1)..];
    assert drawn == rest[|deck| - n..];
    SuffixSnoc(deck, n);
    assert deck[|deck| - n..] == drawn + [top];
    ElementsSnoc(drawn, top);
  }

  /** Where `Deal.exchange` got to: the player's hand and discards, the deck, and what it raised. */
  datatype Exchanged = Exchanged(hand: Hand, discards: seq<Card>, deck: seq<Card>, error: Option<Error>)

  /** `Deal.exchange(player, cards)`: discard all the cards first, then draw one per card. */
  function ExchangeAll(h: Hand, discards: seq<Card>, deck: seq<Card>, cards: seq<Card>): (r: Exchanged) {
    var d := DiscardAll(h, discards, cards);
    if d.error != None then Exchanged(d.hand, d.discards, deck, d.error)
    else
      var r := DrawEach(d.hand, deck, |cards|);
      Exchanged(r.hand, d.discards, r.deck, r.error)
  }

  /**
   * The exchange succeeds exactly when the cards are distinct, all held, and
   * no more than the deck holds; the hand then keeps its size and trades
   * `cards` for the deck's top `|cards|` cards, which the deck loses, and the
   * discards gain exactly `cards`. A card not
   * held stops it before anything is drawn.
   */
  lemma ExchangeAllSpec(h: Hand, discards: seq<Card>, deck: seq<Card>, cards: seq<Card>)
    requires Apart(h, deck)
    ensures var r := ExchangeAll(h, discards, deck, cards);
      (r.error == None <==> DistinctHeld(h, cards) && |cards| <= |deck|) &&
      (r.error == None ==>
        |r.hand| == |h| && r.deck == deck[..|deck| - |cards|] && r.discards == discards + cards &&
        r.hand.Values == (h.Values - Elements(cards)) + Elements(deck[|deck| - |cards|..])) &&
      (r.error != None && r.error != Some(EmptyDeck) ==> r.deck == deck)
  {
    var d := DiscardAll(h, discards, cards);
    DiscardAllKeeps(h, discards, cards);
    DiscardAllSucceeds(h, discards, cards);
    if d.error == None {
      DiscardAllDone(h, discards, cards);
      DiscardAllRemoves(h, discards, cards);
      assert Apart(d.hand, deck);
      DrawEachSpec(d.hand, deck, |cards|);
      if |cards| <= |deck| {
        DrawEachHand(d.hand, deck, |cards|);
      }
    }
  }

  /** `Deal(elder, younger)`: a new deck between two players. */
  class Deal {
    const elder: Player
    const younger: Player
    const deck: Deck

    /** `Deal(elder, younger)`, with `shuffled` as the order of the new deck. */
    constructor(elder: Player, younger: Player, shuffled: seq<Card>)
      requires |shuffled| == 32 && multiset(shuffled) == multiset(ClassicCards())
      ensures this.elder == elder && this.younger == younger && fresh(deck) && deck.cards == shuffled
    {
      this.elder := elder;
      this.younger := younger;
      deck := new Deck(shuffled);
    }

    /** `Deal.deal`: twelve rounds, the elder and then the younger drawing the top card. */
    method DealCards()
      requires elder != younger && |deck.cards| >= 24
      modifies elder, younger, deck
      ensures var r := DealRounds(Table(old(elder.hand), old(younger.hand), old(deck.cards)), First, 12);
        elder.hand == r.hands.Get(First) && younger.hand == r.hands.Get(Second) && deck.cards == r.deck
      ensures elder.discards == old(elder.discards) && elder.score == old(elder.score) && elder.dealScore == old(elder.dealScore)
      ensures younger.discards == old(younger.discards) && younger.score == old(younger.score) && younger.dealScore == old(younger.dealScore)
    {
      ghost var start := Table(elder.hand, younger.hand, deck.cards);
      for i := 0 to 12
        invariant Table(elder.hand, younger.hand, deck.cards) == DealRounds(start, First, i)
        invariant elder.discards == old(elder.discards) && elder.score == old(elder.score) && elder.dealScore == old(elder.dealScore)
        invariant younger.discards == old(younger.discards) && younger.score == old(younger.score) && younger.dealScore == old(younger.dealScore)
      {
        DealRound(start, i);
      }
    }

    /**
     * One round of `Deal.deal`: the elder and then the younger draw the top
     * card, which makes the table dealt from `start` one round further on.
     */
    method DealRound(ghost start: DealState, ghost i: nat)
      requires elder != younger && |start.deck| >= 2 * (i + 1)
      requires Table(elder.hand, younger.hand, deck.cards) == DealRounds(start, First, i)
      modifies elder, younger, deck
      ensures Table(elder.hand, younger.hand, deck.cards) ==
        DrawTop(DrawTop(Table(old(elder.hand), old(younger.hand), old(deck.cards)), First), Second)
      ensures Table(elder.hand, younger.hand, deck.cards) == DealRounds(start, First, i + 1)
      ensures elder.discards == old(elder.discards) && elder.score == old(elder.score) && elder.dealScore == old(elder.dealScore)
      ensures younger.discards == old(younger.discards) && younger.score == old(younger.score) && younger.dealScore == old(younger.dealScore)
    {
      var top := deck.Pop();
      elder.Draw([top.value]);
      top := deck.Pop();
      younger.Draw([top.value]);
      assert Other(First) == Second;
    }

    /** `Deal.exchange(player, cards)`, what the two Python methods raise returned as the error. */
    method Exchange(player: Player, cards: seq<Card>) returns (error: Option<Error>)
      modifies player, deck
      ensures Exchanged(player.hand, player.discards, deck.cards, error) ==
        ExchangeAll(old(player.hand), old(player.discards), old(deck.cards), cards)
      ensures player.score == old(player.score) && player.dealScore == old(player.dealScore)
    {
      ghost var discarded := DiscardAll(player.hand, player.discards, cards);
      error := player.Discard(cards);
      if error != None {
        return;
      }
      for i := 0 to |cards|
        invariant DrawEach(discarded.hand, old(deck.cards), |cards|) == DrawEach(player.hand, deck.cards, |cards| - i)
        invariant player.discards == discarded.discards
        invariant player.score == old(player.score) && player.dealScore == old(player.dealScore)
      {
        var top := deck.Pop();
        if top == None {
          return Some(EmptyDeck);
        }
        player.Draw([top.value]);
      }
    }
  }

  /* -------------------------------------------------------------- partie */

  /** `Partie(player1, player2)`: one of the two players, chosen at random, deals first. */
  class Partie {
    const dealer: Player
    const nonDealer: Player
    var deals: seq<Deal>

    ghost predicate TwoPlayers() {
      dealer != nonDealer
    }

    /** `dealerIsFirst` stands for the outcome of `choice`. */
    constructor(player1: Player, player2: Player, dealerIsFirst: bool)
      requires player1 != player2
      ensures dealer == (if dealerIsFirst then player1 else player2)
      ensures nonDealer == (if dealerIsFirst then player2 else player1)
      ensures deals == [] && TwoPlayers()
    {
      dealer := if dealerIsFirst then player1 else player2;
      nonDealer := if dealerIsFirst then player2 else player1;
      deals := [];
    }

    /** `Partie.new_deal`: the non-dealer is elder in the first, third, ... deal, the dealer in the others. */
    method NewDeal(shuffled: seq<Card>) returns (d: Deal)
      requires TwoPlayers()
      requires |shuffled| == 32 && multiset(shuffled) == multiset(ClassicCards())
      modifies this
      ensures fresh(d) && fresh(d.deck) && d.deck.cards == shuffled && deals == old(deals) + [d]
      ensures |old(deals)| % 2 == 0 ==> d.elder == nonDealer && d.younger == dealer
      ensures |old(deals)| % 2 == 1 ==> d.elder == dealer && d.younger == nonDealer
    {
      if |deals| == 0 || |deals| % 2 == 0 {
        d := new Deal(nonDealer, dealer, shuffled);
      } else {
        d := new Deal(dealer, nonDealer, shuffled);
      }
      deals := deals + [d];
    }
  }
}
