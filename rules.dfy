/**
 * The rules of a deal of piquet as pure transitions on the state of a
 * `Deal` (core/game.py:309-426) and of a `Partie` (core/game.py:428-455):
 * dealing with the carte-blanche bonus, the exchange, the scoring of the
 * declarations with the repique, the play of a trick with its bonuses, and
 * the final score of the partie.
 */
module Rules {
  import opened Wrappers
  import opened Lists
  import opened Cards
  import opened Hands

  /** The two players of a partie, in the order the partie was created with them. */
  datatype PlayerId = First | Second

  function Other(p: PlayerId): (r: PlayerId) {
    if p == First then Second else First
  }

  /** What Python raises midway through an operation. */
  datatype Error =
    | NotHeld(card: Card)                        // KeyError from `del hand[card.hash()]`
    | EmptyDeck                                  // IndexError from `deck.pop()`
    | NoTableEntry(category: Category, key: int) // KeyError from `SCORE_VALUES`

  /** A dictionary of `Deal` with an entry for each of the two players. */
  datatype PerPlayer<T> = PerPlayer(first: T, second: T) {
    function Get(p: PlayerId): (r: T) {
      if p == First then first else second
    }

    function Set(p: PlayerId, v: T): (r: PerPlayer<T>)
      ensures r.Get(p) == v && r.Get(Other(p)) == Get(Other(p))
    {
      if p == First then PerPlayer(v, second) else PerPlayer(first, v)
    }
  }

  /** The fields of a `Deal` together with the two players' hands. */
  datatype DealState = DealState(
    hands: PerPlayer<Hand>,
    deck: seq<Card>,
    score: PerPlayer<int>,
    tricks: PerPlayer<int>,
    discards: PerPlayer<seq<Card>>,
    repique: Option<PlayerId>,
    pique: Option<PlayerId>)

  /**
   * The cards are where a real deal can put them: each hand is keyed by
   * `Card.hash`, the deck holds no card twice, and no card is in two places.
   */
  ghost predicate Wf(st: DealState) {
    WellKeyed(st.hands.Get(First)) && WellKeyed(st.hands.Get(Second)) && NoDup(st.deck) &&
    st.hands.Get(First).Values !! st.hands.Get(Second).Values &&
    forall i :: 0 <= i < |st.deck| ==> st.deck[i] !in st.hands.Get(First).Values && st.deck[i] !in st.hands.Get(Second).Values
  }

  /** `Deal.__init__` with `reset_players`: empty hands, zero scores and tricks, no bonus yet. */
  function Fresh(deck: seq<Card>): (r: DealState) {
    DealState(PerPlayer(map[], map[]), deck, PerPlayer(0, 0), PerPlayer(0, 0), PerPlayer([], []), None, None)
  }

  /* ------------------------------------------------------------- dealing */

  /** `p.draw([deck.pop()])`. */
  function DrawTop(st: DealState, p: PlayerId): (r: DealState)
    requires st.deck != []
  {
    var top := st.deck[|st.deck| - 1];
    st.(hands := st.hands.Set(p, DrawAll(st.hands.Get(p), [top])), deck := st.deck[..|st.deck| - 1])
  }

  lemma DrawTopSpec(st: DealState, p: PlayerId)
    requires Wf(st) && st.deck != []
    ensures Wf(DrawTop(st, p))
    ensures |DrawTop(st, p).hands.Get(p)| == |st.hands.Get(p)| + 1
    ensures DrawTop(st, p).hands.Get(p).Values == st.hands.Get(p).Values + {st.deck[|st.deck| - 1]}
    ensures DrawTop(st, p).hands.Get(Other(p)) == st.hands.Get(Other(p))
    ensures DrawTop(st, p).deck == st.deck[..|st.deck| - 1]
  {
    var top := st.deck[|st.deck| - 1];
    var r := DrawTop(st, p);
    assert DrawAll(st.hands.Get(p), [top]) == st.hands.Get(p)[Hash(top) := top];
    HeldAfterDraw(st.hands.Get(p), top);
    DrawNewCard(st.hands.Get(p), top);
    assert p == First || p == Second;
    assert Other(p) == First || Other(p) == Second;
    forall i | 0 <= i < |r.deck|
      ensures r.deck[i] !in r.hands.Get(First).Values && r.deck[i] !in r.hands.Get(Second).Values
    {
      assert r.deck[i] == st.deck[i] && st.deck[i] != top;
    }
  }

  /** The first n rounds of the `for i in range(12)` loop of `Deal.deal`. */
  function DealRounds(st: DealState, elder: PlayerId, n: nat): (r: DealState)
    requires |st.deck| >= 2 * n
    ensures |r.deck| == |st.deck| - 2 * n
  {
    if n == 0 then st
    else DrawTop(DrawTop(DealRounds(st, elder, n - 1), elder), Other(elder))
  }

  /** The carte-blanche loop of `Deal.deal`: the first qualifying player gets 10, then `break`. */
  function AwardCarteBlanche(st: DealState, elder: PlayerId): (r: DealState)
  {
    var younger := Other(elder);
    if CarteBlanche(st.hands.Get(elder)) then st.(score := st.score.Set(elder, st.score.Get(elder) + 10))
    else if CarteBlanche(st.hands.Get(younger)) then st.(score := st.score.Set(younger, st.score.Get(younger) + 10))
    else st
  }

  /** `Deal.deal`. */
  function Dealt(st: DealState, elder: PlayerId): (r: DealState)
    requires |st.deck| >= 24
  {
    AwardCarteBlanche(DealRounds(st, elder, 12), elder)
  }

  /** Every card of the game is in one of the hands or in the deck. */
  ghost predicate Covers(st: DealState)
  {
    forall c: Card :: c in st.hands.Get(First).Values || c in st.hands.Get(Second).Values || c in st.deck
  }

  /** Drawing the top card moves it from the deck to the hand, so no card is lost. */
  lemma DrawTopCovers(st: DealState, p: PlayerId)
    requires Wf(st) && st.deck != [] && Covers(st)
    ensures Covers(DrawTop(st, p))
  {
    DrawTopSpec(st, p);
    var r := DrawTop(st, p);
    assert p == First || p == Second;
    forall c: Card ensures c in r.hands.Get(First).Values || c in r.hands.Get(Second).Values || c in r.deck {
      if c in st.deck {
        var i :| 0 <= i < |st.deck| && st.deck[i] == c;
        if i < |st.deck| - 1 {
          assert r.deck[i] == c;
        }
      }
    }
  }

  /** One round of dealing: the elder and then the younger take the top card. */
  lemma DealRoundSpec(st: DealState, elder: PlayerId)
    requires Wf(st) && |st.deck| >= 2 && Covers(st)
    ensures var r := DrawTop(DrawTop(st, elder), Other(elder));
      Wf(r) && Covers(r) && r.deck == st.deck[..|st.deck| - 2] && r.score == st.score &&
      |r.hands.Get(First)| == |st.hands.Get(First)| + 1 && |r.hands.Get(Second)| == |st.hands.Get(Second)| + 1
  {
    DrawTopSpec(st, elder);
    DrawTopCovers(st, elder);
    var mid := DrawTop(st, elder);
    DrawTopSpec(mid, Other(elder));
    DrawTopCovers(mid, Other(elder));
    assert elder == First || elder == Second;
    assert st.deck[..|st.deck| - 2] == mid.deck[..|mid.deck| - 1];
  }

  /** Before the deal both hands are empty and every card is in the deck. */
  lemma FreshSpec(deck: seq<Card>)
    requires IsShuffled(deck)
    ensures Wf(Fresh(deck)) && Covers(Fresh(deck))
    ensures |Fresh(deck).hands.Get(First)| == 0 && |Fresh(deck).hands.Get(Second)| == 0
  {
    ShuffledDeck(deck);
  }

  /** n rounds of dealing give each player n more cards from the top of the deck. */
  lemma {:induction false} DealRoundsSpec(st: DealState, elder: PlayerId, n: nat)
    requires Wf(st) && Covers(st) && |st.deck| >= 2 * n
    ensures var r := DealRounds(st, elder, n);
      Wf(r) && Covers(r) && r.deck == st.deck[..|st.deck| - 2 * n] && r.score == st.score &&
      |r.hands.Get(First)| == |st.hands.Get(First)| + n && |r.hands.Get(Second)| == |st.hands.Get(Second)| + n
  {
    if n == 0 {
      assert st.deck[..|st.deck|] == st.deck;
    } else {
      DealRoundsSpec(st, elder, n - 1);
      var mid := DealRounds(st, elder, n - 1);
      DealRoundSpec(mid, elder);
      assert st.deck[..|st.deck| - 2 * n] == mid.deck[..|mid.deck| - 2];
    }
  }

  /**
   * Dealing a shuffled deck of all 32 cards leaves 12 distinct cards in each
   * hand and 8 in the deck, every card in exactly one of the three places.
   */
  lemma DealLeavesTwelveEach(deck: seq<Card>, elder: PlayerId)
    requires IsShuffled(deck)
    ensures var r := Dealt(Fresh(deck), elder);
      Wf(r) && Covers(r) && |r.hands.Get(First)| == 12 && |r.hands.Get(Second)| == 12 && |r.deck| == 8
  {
    FreshSpec(deck);
    DealRoundsSpec(Fresh(deck), elder, 12);
    var dealt := DealRounds(Fresh(deck), elder, 12);
    CarteBlancheSpec(dealt, elder);
  }

  /**
   * The carte-blanche bonus: 10 points to at most one player, only to a hand
   * with no Jack, Queen or King, the elder first; a qualifying hand means the
   * bonus is given; nothing else changes.
   */
  lemma CarteBlancheSpec(st: DealState, elder: PlayerId)
    ensures var r := AwardCarteBlanche(st, elder);
      (forall p :: r.score.Get(p) == st.score.Get(p) || (r.score.Get(p) == st.score.Get(p) + 10 && CarteBlanche(st.hands.Get(p)))) &&
      (r.score.Get(elder) == st.score.Get(elder) || r.score.Get(Other(elder)) == st.score.Get(Other(elder))) &&
      (CarteBlanche(st.hands.Get(elder)) ==> r.score.Get(elder) == st.score.Get(elder) + 10) &&
      (CarteBlanche(st.hands.Get(Other(elder))) ==> r.score != st.score) &&
      r.hands == st.hands && r.deck == st.deck && r.tricks == st.tricks && r.discards == st.discards &&
      r.repique == st.repique && r.pique == st.pique
  {
    var r := AwardCarteBlanche(st, elder);
    assert elder == First || elder == Second;
    if CarteBlanche(st.hands.Get(Other(elder))) && !CarteBlanche(st.hands.Get(elder)) {
      assert r.score.Get(Other(elder)) != st.score.Get(Other(elder));
    }
  }

  /* ------------------------------------------------------------ exchange */

  datatype Step = Step(state: DealState, error: Option<Error>)

  /** `del player.hand[card.hash()]` and `self.discards[player].append(card)`. */
  function Discarded(st: DealState, p: PlayerId, c: Card): (r: DealState)
  {
    st.(hands := st.hands.Set(p, st.hands.Get(p) - {Hash(c)}), discards := st.discards.Set(p, st.discards.Get(p) + [c]))
  }

  /**
   * `Deal.exchange(p, cards)`: for each card in turn, delete it from the hand,
   * append it to the discards and draw the top of the deck. A card not held
   * stops the loop with the state as it is; so does an empty deck, after the
   * card was discarded.
   */
  function ExchangeFrom(st: DealState, p: PlayerId, cards: seq<Card>): (r: Step)
    decreases |cards|
  {
    if cards == [] then Step(st, None)
    else
      var c := cards[0];
      if Hash(c) !in st.hands.Get(p) then Step(st, Some(NotHeld(c)))
      else
        var st1 := Discarded(st, p, c);
        if st1.deck == [] then Step(st1, Some(EmptyDeck))
        else ExchangeFrom(DrawTop(st1, p), p, cards[1..])
  }

  /** Discarding a held card keeps the state well formed and shrinks the hand by one. */
  lemma DiscardSpec(st: DealState, p: PlayerId, c: Card)
    requires Wf(st) && Hash(c) in st.hands.Get(p)
    ensures var st1 := Discarded(st, p, c);
      Wf(st1) && |st1.hands.Get(p)| == |st.hands.Get(p)| - 1 && st1.hands.Get(p).Values == st.hands.Get(p).Values - {c}
  {
    HeldAfterRemove(st.hands.Get(p), c);
    assert p == First || p == Second;
  }

  /** Exchanging one held card: the hand keeps its size and the deck loses its top card. */
  lemma ExchangeStepSpec(st: DealState, p: PlayerId, c: Card)
    requires Wf(st) && Hash(c) in st.hands.Get(p) && st.deck != []
    ensures var r := DrawTop(Discarded(st, p, c), p);
      Wf(r) && |r.hands.Get(p)| == |st.hands.Get(p)| && r.deck == st.deck[..|st.deck| - 1] &&
      r.discards.Get(p) == st.discards.Get(p) + [c] && r.discards.Get(Other(p)) == st.discards.Get(Other(p)) &&
      r.hands.Get(Other(p)) == st.hands.Get(Other(p)) && r.score == st.score && r.tricks == st.tricks &&
      r.repique == st.repique && r.pique == st.pique
  {
    DiscardSpec(st, p, c);
    DrawTopSpec(Discarded(st, p, c), p);
    assert Other(p) != p;
  }

  /** An exchange that goes past its first card has discarded it and drawn the top card. */
  lemma ExchangeUnfold(st: DealState, p: PlayerId, cards: seq<Card>)
    requires cards != [] && ExchangeFrom(st, p, cards).error == None
    ensures Hash(cards[0]) in st.hands.Get(p) && Discarded(st, p, cards[0]).deck != []
    ensures ExchangeFrom(st, p, cards) == ExchangeFrom(DrawTop(Discarded(st, p, cards[0]), p), p, cards[1..])
  {
  }

  /**
   * A completed exchange keeps the hand's size, takes exactly `|cards|` cards
   * off the deck, appends exactly `cards` to the discards, and leaves the
   * other hand, the scores, the repique and the pique alone.
   */
  lemma {:induction false} ExchangeSpec(st: DealState, p: PlayerId, cards: seq<Card>)
    requires Wf(st) && ExchangeFrom(st, p, cards).error == None
    ensures var r := ExchangeFrom(st, p, cards).state;
      Wf(r) && |r.hands.Get(p)| == |st.hands.Get(p)| && |st.deck| >= |cards| && r.deck == st.deck[..|st.deck| - |cards|] &&
      r.discards.Get(p) == st.discards.Get(p) + cards && r.discards.Get(Other(p)) == st.discards.Get(Other(p)) &&
      r.hands.Get(Other(p)) == st.hands.Get(Other(p)) && r.score == st.score && r.tricks == st.tricks &&
      r.repique == st.repique && r.pique == st.pique
    decreases |cards|
  {
    if cards == [] {
      assert st.deck[..|st.deck|] == st.deck;
    } else {
      var c := cards[0];
      ExchangeUnfold(st, p, cards);
      ExchangeStepSpec(st, p, c);
      var st2 := DrawTop(Discarded(st, p, c), p);
      ExchangeSpec(st2, p, cards[1..]);
      assert st.deck[..|st.deck| - |cards|] == st2.deck[..|st2.deck| - |cards[1..]|];
      AppendFront(st.discards.Get(p), cards);
    }
  }

  /** A card in neither the hand nor the deck is still in neither after one card is exchanged. */
  lemma StepKeepsOut(st: DealState, p: PlayerId, d: Card, c: Card)
    requires Wf(st) && Hash(d) in st.hands.Get(p) && Discarded(st, p, d).deck != []
    requires c !in st.hands.Get(p).Values && c !in st.deck
    ensures var st2 := DrawTop(Discarded(st, p, d), p);
      Wf(st2) && c !in st2.hands.Get(p).Values && c !in st2.deck
  {
    DiscardSpec(st, p, d);
    DrawTopSpec(Discarded(st, p, d), p);
  }

  /** A card held neither in the hand nor in the deck makes the exchange fail. */
  lemma {:induction false} ExchangeRejects(st: DealState, p: PlayerId, cards: seq<Card>, c: Card)
    requires Wf(st) && c in cards && c !in st.hands.Get(p).Values && c !in st.deck
    ensures ExchangeFrom(st, p, cards).error != None
    decreases |cards|
  {
    var d := cards[0];
    HeldIff(st.hands.Get(p), c);
    if d != c && Hash(d) in st.hands.Get(p) && Discarded(st, p, d).deck != [] {
      var st2 := DrawTop(Discarded(st, p, d), p);
      StepKeepsOut(st, p, d, c);
      assert c in cards[1..];
      ExchangeRejects(st2, p, cards[1..], c);
    }
  }

  /** Distinct held cards, no more than the deck holds, are always exchanged. */
  lemma {:induction false} ExchangeSucceeds(st: DealState, p: PlayerId, cards: seq<Card>)
    requires Wf(st) && NoDup(cards) && |cards| <= |st.deck|
    requires forall i :: 0 <= i < |cards| ==> cards[i] in st.hands.Get(p).Values
    ensures ExchangeFrom(st, p, cards).error == None
    decreases |cards|
  {
    if cards != [] {
      var c := cards[0];
      HeldIff(st.hands.Get(p), c);
      var st1 := Discarded(st, p, c);
      DiscardSpec(st, p, c);
      DrawTopSpec(st1, p);
      var rest := cards[1..];
      forall i | 0 <= i < |rest| ensures rest[i] in DrawTop(st1, p).hands.Get(p).Values {
        assert rest[i] == cards[i + 1] && cards[i + 1] != c;
      }
      ExchangeSucceeds(DrawTop(st1, p), p, rest);
    }
  }

  /**
   * Exchanging distinct held cards, no more than the deck holds, replaces them
   * with the deck's top `|cards|` cards: the hand then holds exactly its other
   * cards and those.
   */
  lemma {:induction false} ExchangeContents(st: DealState, p: PlayerId, cards: seq<Card>)
    requires Apart(st.hands.Get(p), st.deck) && NoDup(cards) && |cards| <= |st.deck|
    requires forall i :: 0 <= i < |cards| ==> cards[i] in st.hands.Get(p).Values
    ensures ExchangeFrom(st, p, cards).state.hands.Get(p).Values ==
      (st.hands.Get(p).Values - Elements(cards)) + Elements(st.deck[|st.deck| - |cards|..])
    decreases |cards|
  {
    if cards == [] {
      assert st.deck[|st.deck|..] == [];
      assert Elements(cards) == {};
    } else {
      var c, rest := cards[0], cards[1..];
      var top := st.deck[|st.deck| - 1];
      var st2 := DrawTop(Discarded(st, p, c), p);
      ExchangeContentsStep(st, p, cards);
      ExchangeContents(st2, p, rest);
      var drawn := st2.deck[|st2.deck| - |rest|..];
      var below := st.deck[..|st.deck| - 1];
      assert st2.deck == below && |st2.deck| - |rest| == |st.deck| - |cards|;
      assert drawn == below[|st.deck| - |cards|..];
      SuffixSnoc(st.deck, |cards|);
      assert st.deck[|st.deck| - |cards|..] == drawn + [top];
      assert ExchangeFrom(st, p, cards).state == ExchangeFrom(st2, p, rest).state;
      SwapOne(st.hands.Get(p).Values, st2.hands.Get(p).Values, ExchangeFrom(st2, p, rest).state.hands.Get(p).Values,
              cards, top, drawn);
    }
  }

  /** The same, card by card: a card is in the hand afterwards exactly when it was and is not exchanged, or was drawn. */
  lemma ExchangeHolds(st: DealState, p: PlayerId, cards: seq<Card>)
    requires Wf(st) && NoDup(cards) && |cards| <= |st.deck|
    requires forall i :: 0 <= i < |cards| ==> cards[i] in st.hands.Get(p).Values
    ensures var r := ExchangeFrom(st, p, cards).state;
      forall c :: c in r.hands.Get(p).Values <==>
        (c in st.hands.Get(p).Values && c !in cards) || c in st.deck[|st.deck| - |cards|..]
  {
    assert p == First || p == Second;
    ExchangeContents(st, p, cards);
  }

  /**
   * One card of an exchange: it leaves the hand and the top card joins it; the
   * remaining cards are still distinct and held, and the top card is not among them.
   */
  lemma ExchangeContentsStep(st: DealState, p: PlayerId, cards: seq<Card>)
    requires Apart(st.hands.Get(p), st.deck) && NoDup(cards) && 0 < |cards| <= |st.deck|
    requires forall i :: 0 <= i < |cards| ==> cards[i] in st.hands.Get(p).Values
    ensures Hash(cards[0]) in st.hands.Get(p)
    ensures var st2 := DrawTop(Discarded(st, p, cards[0]), p);
      var rest := cards[1..];
      Apart(st2.hands.Get(p), st2.deck) && NoDup(rest) && |rest| <= |st2.deck| &&
      (forall i :: 0 <= i < |rest| ==> rest[i] in st2.hands.Get(p).Values) &&
      st.deck[|st.deck| - 1] !in Elements(rest) &&
      st2.hands.Get(p).Values == st.hands.Get(p).Values - {cards[0]} + {st.deck[|st.deck| - 1]} &&
      st2.deck == st.deck[..|st.deck| - 1]
  {
    var c, rest := cards[0], cards[1..];
    var h := st.hands.Get(p);
    var top := st.deck[|st.deck| - 1];
    SwapTop(st, p, c);
    NoDupTail(cards);
    assert top !in h.Values;
    forall i | 0 <= i < |rest| ensures rest[i] in h.Values - {c} + {top} && rest[i] != top {
      assert rest[i] == cards[i + 1];
    }
  }

  /** Discarding a held card and drawing the top card: the card leaves the hand and the top card joins it. */
  lemma SwapTop(st: DealState, p: PlayerId, c: Card)
    requires Apart(st.hands.Get(p), st.deck) && c in st.hands.Get(p).Values && st.deck != []
    ensures Hash(c) in st.hands.Get(p)
    ensures var st2 := DrawTop(Discarded(st, p, c), p);
      Apart(st2.hands.Get(p), st2.deck) &&
      st2.hands.Get(p).Values == st.hands.Get(p).Values - {c} + {st.deck[|st.deck| - 1]} &&
      st2.deck == st.deck[..|st.deck| - 1]
  {
    var h := st.hands.Get(p);
    var top := st.deck[|st.deck| - 1];
    HeldIff(h, c);
    HeldAfterRemove(h, c);
    var h1 := h - {Hash(c)};
    assert Apart(h1, st.deck);
    DrawTopApart(h1, st.deck);
    assert DrawTop(Discarded(st, p, c), p).hands.Get(p) == DrawAll(h1, [top]);
  }

  /** The hand of one exchange step, in terms of sets: `c` leaves, `top` joins, and the rest is exchanged. */
  lemma SwapOne<T>(h: set<T>, h2: set<T>, r: set<T>, cards: seq<T>, top: T, drawn: seq<T>)
    requires cards != [] && top !in Elements(cards[1..])
    requires h2 == h - {cards[0]} + {top}
    requires r == (h2 - Elements(cards[1..])) + Elements(drawn)
    ensures r == (h - Elements(cards)) + Elements(drawn + [top])
  {
    ElementsCons(cards);
    ElementsSnoc(drawn, top);
  }

  /* -------------------------------------------------------- declarations */

  /** A hand's three declarations: `Player.point`, `Player.sequences` and `Player.sets`. */
  datatype Declared = Declared(point: Declaration, sequences: Declaration, sets: Declaration)

  function DeclaredBy(h: Hand): (r: Declared) {
    Declared(PointOf(h), SequencesOf(h), SetsOf(h))
  }

  /** `getattr(player, category)`. */
  function Pick(d: Declared, cat: Category): (r: Declaration) {
    match cat
    case Point => d.point
    case Sequences => d.sequences
    case Sets => d.sets
  }

  /** `Deal.SCORE_VALUES`: what a declaration of a given size is worth. */
  function TableValue(cat: Category, n: int): (r: Option<int>) {
    match cat
    case Point => if 4 <= n <= 8 then Some(n) else None
    case Sequences =>
      if n == 3 then Some(3) else if n == 4 then Some(4) else if 5 <= n <= 8 then Some(n + 10) else None
    case Sets => if n == 3 then Some(3) else if n == 4 then Some(14) else None
  }

  /** What crediting a declaration adds, or the table key that is missing. */
  datatype Credit = Points(n: int) | Unlisted(key: int)

  /** The sum of the table values of every group, or the first group size without one. */
  function GroupCredits(cat: Category, groups: seq<seq<Card>>): (r: Credit) {
    if groups == [] then Points(0)
    else match TableValue(cat, |groups[0]|)
      case None => Unlisted(|groups[0]|)
      case Some(v) =>
        match GroupCredits(cat, groups[1..])
        case Points(rest) => Points(v + rest)
        case Unlisted(k) => Unlisted(k)
  }

  /** The credit for winning a category with declaration d. */
  function CreditOf(cat: Category, d: Declaration): (r: Credit) {
    if cat == Point then
      match TableValue(Point, d.score)
      case Some(v) => Points(v)
      case None => Unlisted(d.score)
    else if d.value.Groups? then GroupCredits(cat, d.value.groups)
    else Points(0)
  }

  /** The declarations of player p, given the elder's and the younger's. */
  function Of(p: PlayerId, elder: PlayerId, e: Declared, y: Declared): (r: Declared) {
    if p == elder then e else y
  }

  /** `max` over the results of elder then younger: the younger wins only when strictly greater. */
  function CategoryWinner(elder: PlayerId, e: Declared, y: Declared, cat: Category): (r: PlayerId) {
    if Less(Pick(e, cat), Pick(y, cat)) then Other(elder) else elder
  }

  /** The loop over the three categories of `Deal.score_declarations`. */
  function CreditCategories(st: DealState, elder: PlayerId, e: Declared, y: Declared, cats: seq<Category>): (r: Step)
    decreases |cats|
  {
    if cats == [] then Step(st, None)
    else
      var w := CategoryWinner(elder, e, y, cats[0]);
      match CreditOf(cats[0], Pick(Of(w, elder, e, y), cats[0]))
      case Unlisted(k) => Step(st, Some(NoTableEntry(cats[0], k)))
      case Points(v) => CreditCategories(st.(score := st.score.Set(w, st.score.Get(w) + v)), elder, e, y, cats[1..])
  }

  /** Does p have at least 30 while the other player has nothing? */
  predicate Qualifies(st: DealState, p: PlayerId)
  {
    st.score.Get(p) >= 30 && st.score.Get(Other(p)) == 0
  }

  /** One pass of the repique loop: a qualifying player is recorded and gets 60. */
  function RepiqueFor(st: DealState, p: PlayerId): (r: DealState)
  {
    if Qualifies(st, p) then st.(repique := Some(p), score := st.score.Set(p, st.score.Get(p) + 60)) else st
  }

  /** The repique loop of `Deal.score_declarations`, over the players in the given order. */
  function AwardRepique(st: DealState, order: seq<PlayerId>): (r: DealState)
    decreases |order|
  {
    if order == [] then st else AwardRepique(RepiqueFor(st, order[0]), order[1..])
  }

  const CATEGORIES: seq<Category> := [Point, Sequences, Sets]

  /** `Deal.score_declarations`, given both players' declarations. */
  function Scored(st: DealState, elder: PlayerId, e: Declared, y: Declared): (r: Step)
  {
    var credited := CreditCategories(st, elder, e, y, CATEGORIES);
    if credited.error.Some? then credited
    else Step(AwardRepique(credited.state, [elder, Other(elder)]), None)
  }

  /** `Deal.score_declarations` on the hands of the deal. */
  function ScoredDeclarations(st: DealState, elder: PlayerId): (r: Step)
  {
    Scored(st, elder, DeclaredBy(st.hands.Get(elder)), DeclaredBy(st.hands.Get(Other(elder))))
  }

  /**
   * What the table asks of a hand's declarations: the point is a pip total
   * and the others are groups; the point has a table entry exactly when it is
   * not 0, and every sequence and set has one.
   */
  ghost predicate Creditable(d: Declared) {
    d.point.value.PipTotal? && d.sequences.value.Groups? && d.sets.value.Groups? &&
    d.point.score >= 0 && (CreditOf(Point, d.point).Points? <==> d.point.score != 0) &&
    CreditOf(Sequences, d.sequences).Points? && CreditOf(Sets, d.sets).Points?
  }

  /** The table has an entry for every group `Player.sequences` or `Player.sets` can declare. */
  lemma {:induction false} GroupsAlwaysCredited(cat: Category, groups: seq<seq<Card>>)
    requires cat != Point
    requires forall k :: 0 <= k < |groups| ==> 3 <= |groups[k]| <= (if cat == Sets then 4 else 8)
    ensures GroupCredits(cat, groups).Points?
    ensures GroupCredits(cat, groups).n >= 3 * |groups|
  {
    if groups != [] {
      GroupsAlwaysCredited(cat, groups[1..]);
    }
  }

  lemma PointCredited(h: Hand)
    ensures PointOf(h).value.PipTotal? && PointOf(h).score >= 0
    ensures CreditOf(Point, PointOf(h)).Points? <==> PointOf(h).score != 0
  {
    PointSpec(h);
  }

  lemma SequencesCredited(h: Hand)
    ensures SequencesOf(h).value.Groups? && CreditOf(Sequences, SequencesOf(h)).Points?
  {
    SequencesAreRuns(h);
    SequencesScore(h);
    GroupsAlwaysCredited(Sequences, DeclaredSequences(h));
  }

  lemma SetsCredited(h: Hand)
    ensures SetsOf(h).value.Groups? && CreditOf(Sets, SetsOf(h)).Points?
  {
    SetsAreGroups(h);
    SetsScore(h);
    GroupsAlwaysCredited(Sets, DeclaredSets(h));
  }

  /** The declarations of every hand meet what the table asks. */
  lemma DeclaredCreditable(h: Hand)
    ensures Creditable(DeclaredBy(h))
  {
    PointCredited(h);
    SequencesCredited(h);
    SetsCredited(h);
  }

  /**
   * The category winner holds a maximal result: the younger wins exactly when
   * the elder's result is below, and the winner's result is never below the
   * loser's.
   */
  lemma WinnerIsMaximal(elder: PlayerId, e: Declared, y: Declared, cat: Category)
    requires Creditable(e) && Creditable(y)
    ensures var w := CategoryWinner(elder, e, y, cat);
      (w == Other(elder) <==> Less(Pick(e, cat), Pick(y, cat))) &&
      !Less(Pick(Of(w, elder, e, y), cat), Pick(Of(Other(w), elder, e, y), cat))
  {
    LessOrder(Pick(e, cat), Pick(y, cat));
    assert Other(Other(elder)) == elder && Other(elder) != elder;
  }

  /** The point is credited exactly when one of the two has a point, and its winner's credit is at least 4. */
  lemma PointStage(elder: PlayerId, e: Declared, y: Declared)
    requires Creditable(e) && Creditable(y)
    ensures var c := CreditOf(Point, Pick(Of(CategoryWinner(elder, e, y, Point), elder, e, y), Point));
      (c.Points? <==> !(e.point.score == 0 && y.point.score == 0)) &&
      (c.Unlisted? ==> c.key == 0)
  {
  }

  /** Sequences and sets always have a table entry, so crediting them never fails. */
  lemma GroupStagesSucceed(st: DealState, elder: PlayerId, e: Declared, y: Declared)
    requires Creditable(e) && Creditable(y)
    ensures CreditCategories(st, elder, e, y, [Sequences, Sets]).error == None
  {
    var w2 := CategoryWinner(elder, e, y, Sequences);
    var c2 := CreditOf(Sequences, Pick(Of(w2, elder, e, y), Sequences));
    var st2 := st.(score := st.score.Set(w2, st.score.Get(w2) + c2.n));
    assert [Sequences, Sets][1..] == [Sets] && [Sets][1..] == [];
    assert CreditCategories(st, elder, e, y, [Sequences, Sets]) == CreditCategories(st2, elder, e, y, [Sets]);
  }

  /**
   * Crediting fails exactly when neither player has a point: the winning
   * point of score 0 has no table entry, and nothing has been credited yet.
   */
  lemma CreditFailsIffNoPoint(st: DealState, elder: PlayerId, e: Declared, y: Declared)
    requires Creditable(e) && Creditable(y)
    ensures var r := CreditCategories(st, elder, e, y, CATEGORIES);
      (r.error.Some? <==> e.point.score == 0 && y.point.score == 0) &&
      (r.error.Some? ==> r == Step(st, Some(NoTableEntry(Point, 0))))
  {
    PointStage(elder, e, y);
    var w := CategoryWinner(elder, e, y, Point);
    var c := CreditOf(Point, Pick(Of(w, elder, e, y), Point));
    var r := CreditCategories(st, elder, e, y, CATEGORIES);
    assert CATEGORIES[0] == Point && CATEGORIES[1..] == [Sequences, Sets];
    if c.Points? {
      var st1 := st.(score := st.score.Set(w, st.score.Get(w) + c.n));
      assert r == CreditCategories(st1, elder, e, y, [Sequences, Sets]);
      GroupStagesSucceed(st1, elder, e, y);
    } else {
      assert r == Step(st, Some(NoTableEntry(Point, c.key)));
    }
  }

  /** Scoring the declarations of a deal fails exactly when neither hand has a point of 4 or more cards. */
  lemma DeclarationsFailIffNoPoint(st: DealState, elder: PlayerId)
    ensures ScoredDeclarations(st, elder).error.Some? <==>
      PointOf(st.hands.Get(elder)).score == 0 && PointOf(st.hands.Get(Other(elder))).score == 0
    ensures ScoredDeclarations(st, elder).error.Some? ==>
      ScoredDeclarations(st, elder) == Step(st, Some(NoTableEntry(Point, 0)))
  {
    DeclaredCreditable(st.hands.Get(elder));
    DeclaredCreditable(st.hands.Get(Other(elder)));
    CreditFailsIffNoPoint(st, elder, DeclaredBy(st.hands.Get(elder)), DeclaredBy(st.hands.Get(Other(elder))));
  }

  /** What the winner of each category gets, summed over the categories p wins. */
  function WonCredit(elder: PlayerId, e: Declared, y: Declared, cats: seq<Category>, p: PlayerId): (r: int) {
    if cats == [] then 0
    else
      var w := CategoryWinner(elder, e, y, cats[0]);
      var c := CreditOf(cats[0], Pick(Of(w, elder, e, y), cats[0]));
      (if w == p && c.Points? then c.n else 0) + WonCredit(elder, e, y, cats[1..], p)
  }

  /**
   * On success, each player's score grows by the credits of exactly the
   * categories that player wins, and nothing else changes.
   */
  lemma {:induction false} CreditCategoriesSpec(st: DealState, elder: PlayerId, e: Declared, y: Declared, cats: seq<Category>)
    requires CreditCategories(st, elder, e, y, cats).error == None
    ensures var r := CreditCategories(st, elder, e, y, cats).state;
      (forall p :: r.score.Get(p) == st.score.Get(p) + WonCredit(elder, e, y, cats, p)) &&
      r.hands == st.hands && r.deck == st.deck && r.tricks == st.tricks && r.discards == st.discards &&
      r.repique == st.repique && r.pique == st.pique
    decreases |cats|
  {
    if cats != [] {
      var w := CategoryWinner(elder, e, y, cats[0]);
      var c := CreditOf(cats[0], Pick(Of(w, elder, e, y), cats[0]));
      var st1 := st.(score := st.score.Set(w, st.score.Get(w) + c.n));
      CreditCategoriesSpec(st1, elder, e, y, cats[1..]);
    }
  }

  /**
   * The repique: a player with at least 30 against the other's nothing gets
   * 60 and is recorded, the other's score stays; when neither qualifies,
   * nothing changes. The two cannot both qualify.
   */
  lemma RepiqueSpec(st: DealState, elder: PlayerId)
    ensures !(Qualifies(st, First) && Qualifies(st, Second))
    ensures var r := AwardRepique(st, [elder, Other(elder)]);
      (forall p :: Qualifies(st, p) ==>
         r.repique == Some(p) && r.score.Get(p) == st.score.Get(p) + 60 && r.score.Get(Other(p)) == st.score.Get(Other(p))) &&
      (!Qualifies(st, First) && !Qualifies(st, Second) ==> r.repique == st.repique && r.score == st.score) &&
      r.hands == st.hands && r.deck == st.deck && r.tricks == st.tricks && r.discards == st.discards &&
      r.pique == st.pique
  {
    var y := Other(elder);
    assert Other(y) == elder && y != elder;
    var st1 := RepiqueFor(st, elder);
    var st2 := RepiqueFor(st1, y);
    assert [elder, y][1..] == [y] && [y][1..] == [];
    assert AwardRepique(st, [elder, y]) == AwardRepique(st1, [y]);
    assert AwardRepique(st1, [y]) == AwardRepique(st2, []) == st2;
    assert st1.score.Get(y) == st.score.Get(y);
  }

  /* ---------------------------------------------------------------- tricks */

  /** The `result` dictionary of `Deal.play_trick`. */
  datatype TrickResult = TrickResult(winner: PlayerId, capot: Option<PlayerId>)

  datatype TrickOutcome = Played(result: TrickResult) | Failed(error: Error)

  /** The new deal state, the outcome, and whether the deal scores were added to the partie. */
  datatype TrickStep = TrickStep(state: DealState, outcome: TrickOutcome, last: bool)

  /** `max(self.tricks.items(), key=...)` over elder then younger: the first maximal one. */
  function MostTricks(tricks: PerPlayer<int>, elder: PlayerId): (r: PlayerId)
  {
    if tricks.Get(Other(elder)) > tricks.Get(elder) then Other(elder) else elder
  }

  /** Does the follower take the trick: same suit and a strictly higher rank. */
  predicate FollowerWins(leadCard: Card, followCard: Card) {
    followCard.suit == leadCard.suit && Value(followCard.rank) > Value(leadCard.rank)
  }

  /** The bonuses of the last trick (core/game.py:412-421), once both cards are played. */
  function LastTrick(score: PerPlayer<int>, tricks: PerPlayer<int>, elder: PlayerId, winner: PlayerId)
    : (r: (PerPlayer<int>, Option<PlayerId>))
  {
    var s := score.Set(winner, score.Get(winner) + 1);
    if tricks.Get(winner) == 12 then (s.Set(winner, s.Get(winner) + 40), Some(winner))
    else if tricks.Get(winner) != 6 then
      var most := MostTricks(tricks, elder);
      (s.Set(most, s.Get(most) + 10), None)
    else (s, None)
  }

  /** `del player.hand[card.hash()]`. */
  function Removed(st: DealState, p: PlayerId, c: Card): (r: DealState) {
    st.(hands := st.hands.Set(p, st.hands.Get(p) - {Hash(c)}))
  }

  /** Who takes the trick `lead` led with `leadCard`. */
  function TrickWinner(lead: PlayerId, leadCard: Card, followCard: Card): (r: PlayerId) {
    if FollowerWins(leadCard, followCard) then Other(lead) else lead
  }

  /**
   * The scoring of a trick before the last-trick bonuses (core/game.py:393-410):
   * a point to the leader, a point to a winning follower, the trick to the
   * winner, and the pique.
   */
  function Taken(st: DealState, lead: PlayerId, leadCard: Card, followCard: Card): (r: DealState) {
    var follow := Other(lead);
    var s1 := st.score.Set(lead, st.score.Get(lead) + 1);
    var s2 := if FollowerWins(leadCard, followCard) then s1.Set(follow, s1.Get(follow) + 1) else s1;
    var winner := TrickWinner(lead, leadCard, followCard);
    var loser := Other(winner);
    var tricks := st.tricks.Set(winner, st.tricks.Get(winner) + 1);
    var piqued := st.repique == None && st.pique == None && s2.Get(winner) >= 30 && s2.Get(loser) == 0;
    var s3 := if piqued then s2.Set(winner, s2.Get(winner) + 30) else s2;
    st.(score := s3, tricks := tricks, pique := if piqued then Some(winner) else st.pique)
  }

  /**
   * `Deal.play_trick` with `lead` leading `leadCard` and the other player
   * following with `followCard`.
   */
  function PlayedTrick(st: DealState, elder: PlayerId, lead: PlayerId, leadCard: Card, followCard: Card): (r: TrickStep) {
    var follow := Other(lead);
    if Hash(leadCard) !in st.hands.Get(lead) then TrickStep(st, Failed(NotHeld(leadCard)), false)
    else
      var st1 := Removed(st, lead, leadCard);
      if Hash(followCard) !in st1.hands.Get(follow) then TrickStep(st1, Failed(NotHeld(followCard)), false)
      else
        var winner := TrickWinner(lead, leadCard, followCard);
        var st2 := Taken(Removed(st1, follow, followCard), lead, leadCard, followCard);
        if st2.hands.Get(lead) == map[] then
          var (s, capot) := LastTrick(st2.score, st2.tricks, elder, winner);
          TrickStep(st2.(score := s), Played(TrickResult(winner, capot)), true)
        else TrickStep(st2, Played(TrickResult(winner, None)), false)
  }

  /**
   * A played trick: both cards leave their hands; the follower takes it exactly
   * when it followed suit higher; the winner's trick count rises by one and the
   * loser's stays; each hand shrinks by one card.
   */
  lemma TrickSpec(st: DealState, elder: PlayerId, lead: PlayerId, leadCard: Card, followCard: Card)
    requires Wf(st)
    ensures var t := PlayedTrick(st, elder, lead, leadCard, followCard);
      t.outcome.Played? ==>
        var w := t.outcome.result.winner;
        (w == Other(lead) <==> FollowerWins(leadCard, followCard)) &&
        t.state.tricks.Get(w) == st.tricks.Get(w) + 1 && t.state.tricks.Get(Other(w)) == st.tricks.Get(Other(w)) &&
        t.state.hands.Get(lead).Values == st.hands.Get(lead).Values - {leadCard} &&
        t.state.hands.Get(Other(lead)).Values == st.hands.Get(Other(lead)).Values - {followCard} &&
        |t.state.hands.Get(lead)| == |st.hands.Get(lead)| - 1 && |t.state.hands.Get(Other(lead))| == |st.hands.Get(Other(lead))| - 1 &&
        Wf(t.state) && t.state.deck == st.deck && t.state.repique == st.repique
  {
    var t := PlayedTrick(st, elder, lead, leadCard, followCard);
    if t.outcome.Played? {
      var follow := Other(lead);
      assert lead == First || lead == Second;
      assert Other(follow) == lead && follow != lead;
      HeldAfterRemove(st.hands.Get(lead), leadCard);
      HeldAfterRemove(st.hands.Get(follow), followCard);
      HeldIff(st.hands.Get(lead), leadCard);
      HeldIff(st.hands.Get(follow), followCard);
    }
  }

  /**
   * A trick fails when the leader does not hold the lead card, leaving the
   * deal as it was, or when the follower does not hold the follow card, after
   * the lead card has already left the leader's hand.
   */
  lemma TrickFailure(st: DealState, elder: PlayerId, lead: PlayerId, leadCard: Card, followCard: Card)
    requires Wf(st)
    ensures var t := PlayedTrick(st, elder, lead, leadCard, followCard);
      (leadCard !in st.hands.Get(lead).Values ==> t == TrickStep(st, Failed(NotHeld(leadCard)), false)) &&
      (leadCard in st.hands.Get(lead).Values && followCard !in st.hands.Get(Other(lead)).Values ==>
         t == TrickStep(Removed(st, lead, leadCard), Failed(NotHeld(followCard)), false)) &&
      (t.outcome.Failed? <==> leadCard !in st.hands.Get(lead).Values || followCard !in st.hands.Get(Other(lead)).Values) &&
      (t.outcome.Failed? ==> !t.last && t.state.score == st.score && t.state.tricks == st.tricks)
  {
    HeldIff(st.hands.Get(lead), leadCard);
    HeldIff(st.hands.Get(Other(lead)), followCard);
    assert Other(lead) != lead;
  }

  /**
   * Except for the bonuses, the trick is worth one point to its winner and one
   * to the leader: a trick that is not the last gives the winner 1 (31 with
   * the pique) and the loser 1 exactly when the loser led; the last trick
   * adds the bonuses of `LastTrick` to those scores.
   */
  lemma TrickScore(st: DealState, elder: PlayerId, lead: PlayerId, leadCard: Card, followCard: Card)
    ensures var t := PlayedTrick(st, elder, lead, leadCard, followCard);
      t.outcome.Played? ==>
        var w := t.outcome.result.winner;
        var s := st.score.Set(w, st.score.Get(w) + (if t.state.pique != st.pique then 31 else 1))
          .Set(Other(w), st.score.Get(Other(w)) + (if Other(w) == lead then 1 else 0));
        (!t.last ==> t.state.score == s && t.outcome.result.capot == None) &&
        (t.last ==> (t.state.score, t.outcome.result.capot) == LastTrick(s, t.state.tricks, elder, w))
  {
    assert Other(lead) != lead && Other(Other(lead)) == lead;
  }

  /**
   * The pique is given at most once a deal, never after a repique, and only to
   * a winner who has reached 30 while the loser has nothing.
   */
  lemma PiqueSpec(st: DealState, elder: PlayerId, lead: PlayerId, leadCard: Card, followCard: Card)
    ensures var t := PlayedTrick(st, elder, lead, leadCard, followCard);
      (st.pique.Some? || st.repique.Some? ==> t.state.pique == st.pique) &&
      (t.state.pique != st.pique ==>
         t.outcome.Played? && t.state.pique == Some(t.outcome.result.winner) && st.pique == None && st.repique == None)
    ensures var t := PlayedTrick(st, elder, lead, leadCard, followCard);
      t.outcome.Played? ==>
        var w := t.outcome.result.winner;
        (t.state.pique != st.pique <==>
           st.pique == None && st.repique == None && st.score.Get(w) + 1 >= 30 &&
           st.score.Get(Other(w)) + (if Other(w) == lead then 1 else 0) == 0)
  {
    assert Other(lead) != lead && Other(Other(lead)) == lead;
  }

  /**
   * The last trick: the winner gets one more point; with all 12 tricks the
   * winner also gets 40 for the capot and there is no majority bonus; otherwise,
   * unless the tricks are split 6 to 6, the player with more tricks gets 10.
   */
  lemma LastTrickSpec(score: PerPlayer<int>, tricks: PerPlayer<int>, elder: PlayerId, w: PlayerId)
    ensures var (s, capot) := LastTrick(score, tricks, elder, w);
      (tricks.Get(w) == 12 ==> capot == Some(w) && s.Get(w) == score.Get(w) + 41 && s.Get(Other(w)) == score.Get(Other(w))) &&
      (tricks.Get(w) != 12 ==> capot == None) &&
      (tricks.Get(w) == 6 ==> s.Get(w) == score.Get(w) + 1 && s.Get(Other(w)) == score.Get(Other(w))) &&
      (tricks.Get(w) != 12 && tricks.Get(w) != 6 ==>
         var m := MostTricks(tricks, elder);
         tricks.Get(m) >= tricks.Get(Other(m)) &&
         s.Get(m) == score.Get(m) + (if m == w then 11 else 10) && s.Get(Other(m)) == score.Get(Other(m)) + (if m == w then 0 else 1))
  {
    assert Other(w) != w && Other(Other(w)) == w;
    assert Other(elder) != elder && Other(Other(elder)) == elder;
  }

  /**
   * When both hands had the same size, they still do after the trick; so after
   * the last trick both are empty and no further trick can be played, which
   * is why the deal scores are added to the partie once.
   */
  lemma LastTrickIsFinal(st: DealState, elder: PlayerId, lead: PlayerId, leadCard: Card, followCard: Card,
                         lead2: PlayerId, leadCard2: Card, followCard2: Card)
    requires Wf(st) && |st.hands.Get(First)| == |st.hands.Get(Second)|
    ensures var t := PlayedTrick(st, elder, lead, leadCard, followCard);
      t.outcome.Played? ==>
        |t.state.hands.Get(First)| == |t.state.hands.Get(Second)| &&
        (t.last ==> PlayedTrick(t.state, elder, lead2, leadCard2, followCard2).outcome.Failed?)
  {
    TrickSpec(st, elder, lead, leadCard, followCard);
    assert lead == First || lead == Second;
    var t := PlayedTrick(st, elder, lead, leadCard, followCard);
    if t.outcome.Played? && t.last {
      assert t.state.hands.Get(lead) == map[];
      assert |t.state.hands.Get(lead2)| == 0;
      assert Hash(leadCard2) !in t.state.hands.Get(lead2);
    }
  }

  /**
   * `for player in self.players: self.partie.score[player] += self.score[player]`:
   * each player's partie score grows by that player's deal score.
   */
  function AddDealScores(partieScore: PerPlayer<int>, dealScore: PerPlayer<int>): (r: PerPlayer<int>)
    ensures forall p :: r.Get(p) == partieScore.Get(p) + dealScore.Get(p)
  {
    var s := partieScore.Set(First, partieScore.Get(First) + dealScore.Get(First));
    s.Set(Second, s.Get(Second) + dealScore.Get(Second))
  }

  /* ---------------------------------------------------------------- partie */

  /** `Partie.new_deal`: the non-dealer is elder at even deal indices, the dealer at odd ones. */
  function ElderOf(dealCount: nat, dealer: PlayerId): (r: PlayerId) {
    if dealCount == 0 || dealCount % 2 == 0 then Other(dealer) else dealer
  }

  lemma ElderAlternates(dealCount: nat, dealer: PlayerId)
    ensures ElderOf(dealCount + 1, dealer) == Other(ElderOf(dealCount, dealer))
    ensures ElderOf(0, dealer) != dealer
    ensures ElderOf(dealCount + 2, dealer) == ElderOf(dealCount, dealer)
  {
  }

  /** `sorted(players, key=score)[-1]` over First then Second: stable, so a tie goes to Second. */
  function FinalWinner(score: PerPlayer<int>): (r: PlayerId)
  {
    SortBy([First, Second], p => Key(score.Get(p), 0))[1]
  }

  lemma FinalWinnerSpec(score: PerPlayer<int>)
    ensures score.Get(FinalWinner(score)) >= score.Get(Other(FinalWinner(score)))
    ensures FinalWinner(score) == First <==> score.Get(First) > score.Get(Second)
  {
    SortTwo(First, Second, p => Key(score.Get(p), 0));
  }

  /** `get_final_score`: the rubicon rule. */
  function FinalScore(winnerScore: int, loserScore: int): (r: int) {
    if loserScore >= 100 then 100 + (winnerScore - loserScore) else 100 + (winnerScore + loserScore)
  }

  /**
   * A winner never ends below 100, and scores more for a larger score of its
   * own; the loser's points count against the winner only past 100.
   */
  lemma FinalScoreSpec(w: int, l: int)
    requires 0 <= l <= w
    ensures FinalScore(w, l) >= 100
    ensures FinalScore(w + 1, l) == FinalScore(w, l) + 1
    ensures l < 100 ==> FinalScore(w, l) == 100 + w + l
    ensures l >= 100 ==> FinalScore(w, l) == 100 + w - l
  {
  }

  lemma FinalScoreExamples()
    ensures FinalScore(150, 80) == 330
    ensures FinalScore(102, 45) == 247
    ensures FinalScore(180, 120) == 160
  {
  }
}
