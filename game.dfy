/**
 * The `Deal` and `Partie` objects of core/game.py (core/game.py:309-455):
 * each method updates the fields the way the Python method does, step by
 * step, and is proved to end in the state the matching transition of
 * `Rules` describes, so every lemma about that transition applies to it.
 * The two players' hands are kept in the deal, keyed by player.
 */
module Game {
  import opened Wrappers
  import opened Cards
  import opened Hands
  import opened Rules

  /** A deal in progress: the hands, the stock and the bookkeeping of `Deal`. */
  class Deal {
    const partie: Partie
    const elder: PlayerId
    var hands: PerPlayer<Hand>
    var deck: seq<Card>
    var score: PerPlayer<int>
    var tricks: PerPlayer<int>
    var discards: PerPlayer<seq<Card>>
    var repique: Option<PlayerId>
    var pique: Option<PlayerId>

    function State(): (r: DealState)
      reads this
    {
      DealState(hands, deck, score, tricks, discards, repique, pique)
    }

    /** `Deal(partie, elder, younger)` with `shuffled` as the stock that `Deck` shuffled. */
    constructor(partie: Partie, elder: PlayerId, shuffled: seq<Card>)
      requires IsShuffled(shuffled)
      ensures this.partie == partie && this.elder == elder
      ensures State() == Fresh(shuffled)
    {
      this.partie := partie;
      this.elder := elder;
      hands := PerPlayer(map[], map[]);
      deck := shuffled;
      score := PerPlayer(0, 0);
      tricks := PerPlayer(0, 0);
      discards := PerPlayer([], []);
      repique := None;
      pique := None;
    }

    /** `self.deck.pop()`: the last card of the stock, or nothing when it is empty. */
    method Pop() returns (top: Option<Card>)
      modifies this
      ensures old(deck) == [] ==> top == None && State() == old(State())
      ensures old(deck) != [] ==>
        top == Some(old(deck)[|old(deck)| - 1]) && State() == old(State()).(deck := old(deck)[..|old(deck)| - 1])
    {
      if deck == [] {
        top := None;
      } else {
        top := Some(deck[|deck| - 1]);
        deck := deck[..|deck| - 1];
      }
    }

    /** `player.draw(cards)`: each card is stored in p's hand under its key. */
    method Draw(p: PlayerId, cards: seq<Card>)
      modifies this
      ensures State() == old(State()).(hands := old(hands).Set(p, DrawAll(old(hands).Get(p), cards)))
    {
      for i := 0 to |cards|
        invariant State() == old(State()).(hands := old(hands).Set(p, DrawAll(old(hands).Get(p), cards[..i])))
      {
        var card := cards[i];
        assert cards[..i + 1][..i] == cards[..i];
        hands := hands.Set(p, hands.Get(p)[Hash(card) := card]);
      }
      assert cards[..|cards|] == cards;
    }

    /** `p.draw([self.deck.pop()])`. */
    method DrawTopCard(p: PlayerId)
      requires deck != []
      modifies this
      ensures State() == DrawTop(old(State()), p)
    {
      var top := Pop();
      Draw(p, [top.value]);
    }

    /** The carte-blanche loop of `Deal.deal`: 10 to the first player without court cards. */
    method AwardCarteBlancheBonus()
      modifies this
      ensures State() == AwardCarteBlanche(old(State()), elder)
    {
      var order := [elder, Other(elder)];
      for j := 0 to 2
        invariant State() == old(State())
        invariant j > 0 ==> !CarteBlanche(hands.Get(elder))
        invariant j > 1 ==> !CarteBlanche(hands.Get(Other(elder)))
      {
        var p := order[j];
        if CarteBlanche(hands.Get(p)) {
          score := score.Set(p, score.Get(p) + 10);
          assert p == elder || (p == Other(elder) && !CarteBlanche(hands.Get(elder)));
          break;
        }
      }
    }

    /** `Deal.deal`: twelve rounds of one card each from the top, then the carte-blanche bonus. */
    method DealCards()
      requires |deck| >= 24
      modifies this
      ensures State() == Dealt(old(State()), elder)
    {
      ghost var start := State();
      for i := 0 to 12
        invariant State() == DealRounds(start, elder, i)
      {
        DealRound();
      }
      AwardCarteBlancheBonus();
    }

    /** One round of `Deal.deal`: the elder and then the younger draw the top card. */
    method DealRound()
      requires |deck| >= 2
      modifies this
      ensures State() == DrawTop(DrawTop(old(State()), elder), Other(elder))
    {
      DrawTopCard(elder);
      DrawTopCard(Other(elder));
    }

    /** `Deal.exchange(p, cards)`: discard each card and draw the top of the stock instead. */
    method Exchange(p: PlayerId, cards: seq<Card>) returns (error: Option<Error>)
      modifies this
      ensures Step(State(), error) == ExchangeFrom(old(State()), p, cards)
    {
      ghost var start := State();
      for i := 0 to |cards|
        invariant ExchangeFrom(start, p, cards) == ExchangeFrom(State(), p, cards[i..])
      {
        var card := cards[i];
        assert cards[i..][1..] == cards[i + 1..];
        if Hash(card) !in hands.Get(p) {
          return Some(NotHeld(card));
        }
        hands := hands.Set(p, hands.Get(p) - {Hash(card)});
        discards := discards.Set(p, discards.Get(p) + [card]);
        var top := Pop();
        if top == None {
          return Some(EmptyDeck);
        }
        Draw(p, [top.value]);
      }
      error := None;
    }

    /** The three declarations of a hand, with the sequences found by the scan. */
    static method Declare(h: Hand) returns (d: Declared)
      ensures d == DeclaredBy(h)
    {
      var sequences := ComputeSequences(h);
      d := Declared(PointOf(h), sequences, SetsOf(h));
    }

    /** The category loop of `Deal.score_declarations`, given both players' declarations. */
    method CreditDeclarations(e: Declared, y: Declared) returns (error: Option<Error>)
      modifies this
      ensures Step(State(), error) == CreditCategories(old(State()), elder, e, y, CATEGORIES)
    {
      ghost var start := State();
      for i := 0 to |CATEGORIES|
        invariant CreditCategories(start, elder, e, y, CATEGORIES) == CreditCategories(State(), elder, e, y, CATEGORIES[i..])
      {
        var category := CATEGORIES[i];
        assert CATEGORIES[i..][1..] == CATEGORIES[i + 1..];
        var winner := CategoryWinner(elder, e, y, category);
        match CreditOf(category, Pick(Of(winner, elder, e, y), category))
        case Unlisted(k) =>
          return Some(NoTableEntry(category, k));
        case Points(v) =>
          score := score.Set(winner, score.Get(winner) + v);
      }
      error := None;
    }

    /** The repique loop of `Deal.score_declarations`. */
    method AwardRepiqueBonus()
      modifies this
      ensures State() == AwardRepique(old(State()), [elder, Other(elder)])
    {
      var order := [elder, Other(elder)];
      for j := 0 to 2
        invariant AwardRepique(old(State()), order) == AwardRepique(State(), order[j..])
      {
        var p := order[j];
        assert order[j..][1..] == order[j + 1..];
        if score.Get(p) >= 30 && score.Get(Other(p)) == 0 {
          repique := Some(p);
          score := score.Set(p, score.Get(p) + 60);
        }
      }
    }

    /** `Deal.score_declarations`: credit the winner of each category, then the repique. */
    method ScoreDeclarations() returns (error: Option<Error>)
      modifies this
      ensures Step(State(), error) == ScoredDeclarations(old(State()), elder)
    {
      var e := Declare(hands.Get(elder));
      var y := Declare(hands.Get(Other(elder)));
      error := CreditDeclarations(e, y);
      if error == None {
        AwardRepiqueBonus();
      }
    }

    /** `del self.hand[card.hash()]` on p's hand, when the card is there. */
    method Remove(p: PlayerId, c: Card) returns (held: bool)
      modifies this
      ensures held == (Hash(c) in old(hands).Get(p))
      ensures State() == if held then Removed(old(State()), p, c) else old(State())
    {
      held := Hash(c) in hands.Get(p);
      if held {
        hands := hands.Set(p, hands.Get(p) - {Hash(c)});
      }
    }

    /** The scoring of a trick once both cards are out of the hands. */
    method TakeTrick(lead: PlayerId, leadCard: Card, followCard: Card) returns (winner: PlayerId)
      modifies this
      ensures winner == TrickWinner(lead, leadCard, followCard)
      ensures State() == Taken(old(State()), lead, leadCard, followCard)
    {
      var follow := Other(lead);
      var loser;
      score := score.Set(lead, score.Get(lead) + 1);
      if FollowerWins(leadCard, followCard) {
        score := score.Set(follow, score.Get(follow) + 1);
        winner, loser := follow, lead;
      } else {
        winner, loser := lead, follow;
      }
      tricks := tricks.Set(winner, tricks.Get(winner) + 1);
      if repique == None && pique == None {
        if score.Get(winner) >= 30 && score.Get(loser) == 0 {
          score := score.Set(winner, score.Get(winner) + 30);
          pique := Some(winner);
        }
      }
    }

    /** The bonuses of the last trick: one point, then the capot or the majority of tricks. */
    method LastTrickBonus(winner: PlayerId) returns (capot: Option<PlayerId>)
      modifies this
      ensures (score, capot) == LastTrick(old(score), tricks, elder, winner)
      ensures State() == old(State()).(score := score)
    {
      capot := None;
      score := score.Set(winner, score.Get(winner) + 1);
      if tricks.Get(winner) == 12 {
        score := score.Set(winner, score.Get(winner) + 40);
        capot := Some(winner);
      } else if tricks.Get(winner) != 6 {
        var most := MostTricks(tricks, elder);
        score := score.Set(most, score.Get(most) + 10);
      }
    }

    /**
     * `Deal.play_trick`: `lead` plays `leadCard` and the other player
     * `followCard`; after the last trick the deal scores go to the partie.
     */
    method PlayTrick(lead: PlayerId, leadCard: Card, followCard: Card) returns (outcome: TrickOutcome)
      modifies this, partie
      ensures var t := PlayedTrick(old(State()), elder, lead, leadCard, followCard);
        State() == t.state && outcome == t.outcome &&
        partie.score == (if t.last then AddDealScores(old(partie.score), t.state.score) else old(partie.score)) &&
        (t.last ==> forall p :: partie.score.Get(p) == old(partie.score).Get(p) + t.state.score.Get(p)) &&
        partie.deals == old(partie.deals) && partie.winner == old(partie.winner) &&
        partie.loser == old(partie.loser) && partie.finalScore == old(partie.finalScore)
    {
      var held := Remove(lead, leadCard);
      if !held {
        return Failed(NotHeld(leadCard));
      }
      held := Remove(Other(lead), followCard);
      if !held {
        return Failed(NotHeld(followCard));
      }
      var winner := TakeTrick(lead, leadCard, followCard);
      var capot: Option<PlayerId> := None;
      if hands.Get(lead) == map[] {
        capot := LastTrickBonus(winner);
        partie.score := AddDealScores(partie.score, score);
      }
      outcome := Played(TrickResult(winner, capot));
    }
  }

  /** A match: the dealer, the deals so far and the running scores. */
  class Partie {
    const dealer: PlayerId
    var deals: seq<Deal>
    var score: PerPlayer<int>
    var winner: Option<PlayerId>
    var loser: Option<PlayerId>
    var finalScore: int

    /** `Partie(player1, player2)` with the dealer that `choice` picked. */
    constructor(dealer: PlayerId)
      ensures this.dealer == dealer && deals == [] && score == PerPlayer(0, 0)
      ensures winner == None && loser == None && finalScore == 0
    {
      this.dealer := dealer;
      deals := [];
      score := PerPlayer(0, 0);
      winner := None;
      loser := None;
      finalScore := 0;
    }

    /** `Partie.new_deal`: one new deal, whose elder alternates with the deal index. */
    method NewDeal(shuffled: seq<Card>) returns (d: Deal)
      requires IsShuffled(shuffled)
      modifies this
      ensures fresh(d) && deals == old(deals) + [d]
      ensures d.partie == this && d.elder == ElderOf(|old(deals)|, dealer) && d.State() == Fresh(shuffled)
      ensures score == old(score) && winner == old(winner) && loser == old(loser) && finalScore == old(finalScore)
    {
      var elder := if |deals| == 0 || |deals| % 2 == 0 then Other(dealer) else dealer;
      d := new Deal(this, elder, shuffled);
      deals := deals + [d];
    }

    /** `Partie.get_final_score`: the higher score wins and the rubicon rule gives the result. */
    method GetFinalScore() returns (result: int)
      modifies this
      ensures var w := FinalWinner(old(score));
        winner == Some(w) && loser == Some(Other(w)) &&
        result == FinalScore(score.Get(w), score.Get(Other(w))) && finalScore == result
      ensures score == old(score) && deals == old(deals)
    {
      var w := FinalWinner(score);
      winner := Some(w);
      loser := Some(Other(w));
      if score.Get(Other(w)) >= 100 {
        finalScore := 100 + (score.Get(w) - score.Get(Other(w)));
      } else {
        finalScore := 100 + (score.Get(w) + score.Get(Other(w)));
      }
      result := finalScore;
    }
  }
}
