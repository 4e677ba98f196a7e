# A verified model of the pyquet piquet engine

pyquet plays and scores two-player piquet with the 32-card deck. Its
`core/game.py` and its earlier variant `classes.py` follow the same steps:

- deal twelve cards to each player and leave eight in the stock (the talon);
- let each player exchange cards against the top of the talon;
- declare and score the point, the sequences and the sets;
- play the tricks, with the pique, repique, capot and last-trick bonuses;
- add up a partie of deals with the rubicon rule.

This project restates that engine in Dafny and proves what its rules promise.
It has these modules:

- `Lists`: the Python list operations the engine relies on. These are the
  filtering comprehension and the stable `sorted` with a pair key, plus the
  permutation facts the proofs need.
- `Cards`: ranks, suits and cards, and the two-character key `Card.hash`.
  It also has the deck of `all_cards`, and a hand as a dictionary from that
  key to the card, with `Player.draw`.
- `Hands`: the queries of `core/game.py`'s `Player`. These are the suits,
  carte blanche, the point, the sequences (with the nested `while` scan as a
  verified method) and the sets, with the `Result` order they are compared by.
- `Rules`: every step of a `Deal` and a `Partie` as a pure transition of the
  deal's state, with the lemmas that state the rules.
- `Game`: the `Deal` and `Partie` classes of `core/game.py`. Their methods
  update fields in place, and each method is proved to end in the state the
  matching `Rules` transition gives.
- `Classic`: the `Deck`, `Player`, `Deal` and `Partie` objects of
  `classes.py`, its tuple-valued declarations, and the differences between
  them and `core/game.py`.

The two players of a partie are `First` and `Second`. Python iterates the
set of a deal's players in an order fixed by hashing, so the model fixes that
order as elder then younger. That order decides the tie in `max` between
declarations. It also fixes the order in which the carte-blanche and repique
loops try the players. Rules.RepiqueSpec shows that the two players cannot
both qualify for the repique, and Rules.CarteBlancheSpec that at most one
player gets the carte-blanche bonus, the elder when both hands qualify. For
the final score it fixes `First` then `Second`.

Where Python raises midway through a loop, the model returns the error along
with the state as that loop left it. That covers the `KeyError` of a card not
held, the `IndexError` of an empty talon, and a missing `SCORE_VALUES` entry.

`Partie.get_final_score` gives 100 plus the sum of the two scores when the
loser has fewer than 100. So scores of 150 and 80 give 330, not the 170 that
the difference would give, and the model follows the code
(`Rules.FinalScoreExamples`).

## Model

| member | source | states |
|---|---|---|
| Lists.Filter | core/game.py:286 | the comprehension keeps exactly the elements that satisfy the condition, and nothing longer than the input |
| Lists.SortBy | core/game.py:199-201 | `sorted` with a pair key returns a permutation of its input, ordered by the key |
| Lists.Insert | core/game.py:286-287 | one step of the stable sort: the result is a permutation with the new element added, still ordered |
| Lists.SortTwo | core/game.py:448 | sorting two players by score keeps their order unless the second has the smaller key |
| Cards.HashInjective | core/game.py:65-80 | two cards have the same hash key exactly when they are the same card |
| Cards.AllCardsComplete | core/game.py:85-86 | `all_cards()` has 32 distinct cards and contains every card |
| Cards.ShuffledDeck | core/game.py:88-92 | any shuffle of `all_cards()` has 32 distinct cards and contains every card |
| Cards.HeldIff | classes.py:110-112 | in a hand keyed by `hash`, a card is held exactly when its key is present, and sits under that key |
| Cards.HeldAfterDraw | classes.py:110-112 | storing a card under its key adds exactly that card and keeps the hand keyed |
| Cards.HeldAfterRemove | classes.py:105-108 | deleting a card's key removes exactly that card and keeps the hand keyed |
| Cards.DrawAllHolds | classes.py:110-112 | `draw(cards)` adds exactly the drawn cards and their keys |
| Cards.DrawAllSize | classes.py:110-112 | drawing distinct cards not yet held grows the hand by exactly their number |
| Hands.SuitCardsSpec | core/game.py:198-201 | a suit group holds exactly the held cards of that suit, at most eight, in ascending rank order |
| Hands.SuitsSpec | core/game.py:198-201 | `suits()` returns the four suit groups, every suit's group among them, ordered by size |
| Hands.MaxOf | core/game.py:251 | `max` returns an element of the list that no element exceeds |
| Hands.PointSuits | core/game.py:248 | the point suits are exactly the suit groups as long as the longest, and the longest one is among them |
| Hands.LongestSuitIs | core/game.py:243 | the reference length of the longest suit is the length of some suit and no suit is longer |
| Hands.LastSuitIsLongest | core/game.py:243 | the last of the sorted suits is a longest suit, of at most eight cards |
| Hands.PointTotalAttained | core/game.py:248-252 | the point's pip total is that of a suit as long as the longest |
| Hands.PointTotalGreatest | core/game.py:248-252 | no suit as long as the longest has more pips than the point |
| Hands.PointSpec | core/game.py:241-255 | below four cards in every suit the point is score 0 and value 0; otherwise the score is the longest suit's length (4 to 8) and the value is the largest pip sum among the suits of that length |
| Hands.RunEnd | core/game.py:269-276 | the inner scan stops at or after `runner` and within the suit |
| Hands.ScanLongestRun | core/game.py:262-282 | the nested `while` scan over `i` and `runner` terminates and returns the run that `LongestRun` specifies |
| Hands.RunEndIsRun | core/game.py:269-276 | the inner scan extends a run for as long as the ranks rise by one, and stops where they do not |
| Hands.LongestFromSpec | core/game.py:267-282 | each pass of the outer scan keeps the longest run found so far, the first one on ties (strict `>`) |
| Hands.LongestRunSpec | core/game.py:262-282 | the run kept for a suit is a longest run of consecutive ranks, the first of that length; nothing for an empty suit |
| Hands.RunOfSuit | core/game.py:262-282 | the run kept for a suit holds only held cards of that suit, rising by one rank at each step |
| Hands.ScanSuits | core/game.py:260-284 | the `for suit in suits` loop appends one scan result per suit |
| Hands.ComputeSequences | core/game.py:258-289 | `Player.sequences` as the loops compute it equals the declaration `SequencesOf` specifies |
| Hands.DeclaredSequences | core/game.py:286-287 | every kept sequence has at least three cards |
| Hands.RunsApart | core/game.py:260-284 | the runs of different suits have different suits |
| Hands.RunIsOfSuit | core/game.py:260-284 | every scanned run is the longest run of one suit |
| Hands.SequencesAreRuns | core/game.py:258-289 | every declared sequence is the longest run of one suit, held, consecutive, of 3 to 8 cards |
| Hands.SequencesApart | core/game.py:258-289 | no two declared sequences share a suit |
| Hands.SequencesOrdered | core/game.py:286-287 | declared sequences come longest first, then by highest lowest card |
| Hands.SequencesComplete | core/game.py:260-287 | every suit whose longest run has three cards or more has that run declared |
| Hands.SequencesScore | core/game.py:288-289 | the score is the first sequence's length or 0, so 0 or 3 to 8 |
| Hands.RankCardsSpec | core/game.py:300-302 | a rank group holds exactly the held cards of that rank, at most four |
| Hands.DeclaredSets | core/game.py:300-304 | every kept set has at least three cards |
| Hands.SetsAreGroups | core/game.py:292-304 | every declared set is all the held cards of one rank from Ten to Ace, three or four of them |
| Hands.SetsOrdered | core/game.py:300-304 | declared sets come largest first, then by higher rank |
| Hands.SetsComplete | core/game.py:292-304 | every rank from Ten to Ace held three or four times is declared |
| Hands.SetsScore | core/game.py:305-306 | the score is the first set's size, so 0, 3 or 4 |
| Hands.IntsLessOrder | core/game.py:128-129 | Python's list `<` on rank lists is asymmetric and total on distinct lists |
| Hands.CardsCompareByRank | core/game.py:56-60 | Python's `<` and `==` on two lists of cards, with `Card.__lt__` and `Card.__eq__`, agree exactly with `<` and `==` on their lists of rank values, the comparison `Result.__lt__` makes of card groups |
| Hands.GroupsLessOrder | core/game.py:128-132 | list `<` on card groups is asymmetric, and total except between groups `==` calls equal |
| Hands.LessOrder | core/game.py:128-132 | `Result.__lt__` is asymmetric, and neither of two results of one category is below the other exactly when `Result.__eq__` holds |
| Hands.IntsLessTransitive | core/game.py:128-129 | Python's list `<` on rank lists is transitive |
| Hands.GroupsLessTransitive | core/game.py:128-129 | list `<` on card groups, comparing each group's ranks, is transitive |
| Hands.LessTransitive | core/game.py:128-129 | `Result.__lt__` is transitive, so together with Hands.LessOrder it is a strict order |
| Rules.PerPlayer.Set | core/game.py:338-340 | updating one player's entry of a per-player dictionary leaves the other's alone |
| Rules.DrawTopSpec | core/game.py:354-355 | drawing the top card moves exactly that card from the talon to the hand, and keeps the cards apart |
| Rules.DrawTopCovers | core/game.py:354-355 | drawing the top card loses no card of the game |
| Rules.DealRounds | core/game.py:353-355 | n rounds take 2n cards off the talon |
| Rules.DealRoundSpec | core/game.py:353-355 | one round gives each player one more card from the top, and loses or duplicates none |
| Rules.FreshSpec | core/game.py:331-346 | a new deal starts with empty hands and every card in the talon |
| Rules.DealRoundsSpec | core/game.py:353-355 | n rounds give each player n more cards from the top of the talon, without loss or duplication |
| Rules.DealLeavesTwelveEach | core/game.py:352-359 | dealing a shuffled deck leaves 12 distinct cards in each hand and 8 in the talon, every card in exactly one place |
| Rules.CarteBlancheSpec | core/game.py:356-359 | carte blanche gives 10 to at most one player, only to a hand without Jack, Queen or King, the elder's hand first, and changes nothing else |
| Rules.DiscardSpec | core/game.py:363-364 | discarding a held card removes exactly that card from the hand |
| Rules.ExchangeStepSpec | core/game.py:362-365 | exchanging one held card keeps the hand's size, takes the top card of the talon, and appends the card to the discards |
| Rules.ExchangeUnfold | core/game.py:362-365 | an exchange that gets past its first card held that card and found the talon non-empty |
| Rules.ExchangeSpec | core/game.py:361-365 | a completed exchange keeps the hand's size, shrinks the talon by `len(cards)` from the top, appends exactly `cards` in order to the discards, and leaves the other hand, the scores, the repique and the pique alone |
| Rules.StepKeepsOut | core/game.py:362-365 | a card in neither the hand nor the talon stays out of both |
| Rules.ExchangeRejects | core/game.py:363 | a card that is held neither in the hand nor in the talon makes the exchange fail |
| Rules.ExchangeSucceeds | core/game.py:361-365 | distinct held cards, no more than the talon holds, are always exchanged |
| Rules.ExchangeContents | core/game.py:361-365 | a successful exchange leaves the hand holding exactly its old cards less the exchanged ones plus the top `len(cards)` cards of the talon |
| Rules.ExchangeHolds | core/game.py:361-365 | after a successful exchange the player holds a card exactly when it was held and not exchanged, or was among the top `len(cards)` cards of the talon |
| Rules.GroupsAlwaysCredited | core/game.py:316-329 | the table has an entry for every sequence of 3 to 8 cards and every set of 3 or 4, worth at least 3 each |
| Rules.PointCredited | core/game.py:310-316 | the point has a table entry exactly when its score is not 0 |
| Rules.SequencesCredited | core/game.py:316-325 | every declared sequence has a table entry |
| Rules.SetsCredited | core/game.py:326-329 | every declared set has a table entry |
| Rules.DeclaredCreditable | core/game.py:309-329 | every hand's three declarations meet what the table asks of them |
| Rules.WinnerIsMaximal | core/game.py:369-370 | `max` of elder then younger chooses the younger exactly when the elder's result is below, and the winner's result is never below the loser's |
| Rules.PointStage | core/game.py:371-372 | the point is credited exactly when one of the two has a point |
| Rules.GroupStagesSucceed | core/game.py:373-374 | crediting the sequences and the sets never fails |
| Rules.CreditFailsIffNoPoint | core/game.py:368-374 | crediting fails exactly when neither player has a point, with a `KeyError` for entry 0 and nothing credited |
| Rules.DeclarationsFailIffNoPoint | core/game.py:367-374 | scoring the declarations of a deal fails exactly when neither hand has four cards in a suit |
| Rules.CreditCategoriesSpec | core/game.py:368-374 | each player's score grows by the table values of exactly the categories that player wins, and nothing else changes |
| Rules.RepiqueSpec | core/game.py:376-380 | the two players cannot both qualify; a player with at least 30 against 0 gets 60 and is recorded while the other's score stays; when neither qualifies nothing changes |
| Rules.TrickSpec | core/game.py:388-404 | a played trick removes both cards; the follower wins exactly when it followed suit higher; the winner's trick count rises by one and the loser's does not |
| Rules.TrickFailure | core/game.py:388-389 | a lead card not held fails with the deal unchanged; a follow card not held fails after the lead card left the hand; a failed trick changes no score or trick count |
| Rules.TrickScore | core/game.py:393-421 | a trick gives its winner 1 (31 with the pique) and its loser 1 exactly when the loser led; a trick that is not the last ends there with no capot, and the last trick's score and capot are what `LastTrick` makes of that score |
| Rules.PiqueSpec | core/game.py:407-410 | the pique is given at most once a deal, never after a repique, and only to the trick's winner; it is given exactly when neither bonus was given before, the winner reaches 30 with the trick's point and the loser has still scored nothing |
| Rules.LastTrickSpec | core/game.py:412-421 | the last trick gives its winner 1; with 12 tricks 40 more, plus the capot and no majority bonus; otherwise, unless the split is 6 to 6, 10 to the player with more tricks |
| Rules.LastTrickIsFinal | core/game.py:382-426 | hands of equal size stay equal, and after the last trick no further trick can be played, so the deal scores are added to the partie once |
| Rules.AddDealScores | core/game.py:423-424 | each player's partie score grows by exactly that player's deal score |
| Rules.ElderAlternates | core/game.py:439-445 | the elder alternates from one deal to the next, and the non-dealer is elder first |
| Rules.FinalWinnerSpec | core/game.py:448 | the winner has the higher score, and `First` wins exactly when its score is strictly higher |
| Rules.FinalScoreSpec | core/game.py:450-453 | the final score is at least 100 and rises with the winner's score; the loser's points add below 100 and subtract from 100 on |
| Rules.FinalScoreExamples | core/game.py:450-453 | 150 against 80 gives 330, 102 against 45 gives 247, 180 against 120 gives 160 |
| Game.Deal.constructor | core/game.py:331-346 | a new deal has empty hands, zero scores and tricks, no discards or bonuses, and the shuffled talon |
| Game.Deal.Pop | core/game.py:97-98 | `Deck.pop` takes the last card, or reports an empty talon and changes nothing |
| Game.Deal.Draw | classes.py:110-112 | drawing stores each card in that player's hand and changes nothing else |
| Game.Deal.DrawTopCard | core/game.py:354-355 | the player draws the top card of the talon |
| Game.Deal.AwardCarteBlancheBonus | core/game.py:356-359 | the carte-blanche loop with its `break` ends in the state `AwardCarteBlanche` gives |
| Game.Deal.DealRound | core/game.py:354-355 | one round: the elder and then the younger draw the top card |
| Game.Deal.DealCards | core/game.py:352-359 | `Deal.deal` ends in the state `Dealt` gives |
| Game.Deal.Exchange | core/game.py:361-365 | `Deal.exchange` ends in the state and error `ExchangeFrom` gives |
| Game.Deal.Declare | core/game.py:235-306 | a hand's three declarations, with the sequences found by the scan, are those `DeclaredBy` specifies |
| Game.Deal.CreditDeclarations | core/game.py:368-374 | the category loop ends in the state and error `CreditCategories` gives |
| Game.Deal.AwardRepiqueBonus | core/game.py:376-380 | the repique loop ends in the state `AwardRepique` gives |
| Game.Deal.ScoreDeclarations | core/game.py:367-380 | `Deal.score_declarations` ends in the state and error `ScoredDeclarations` gives |
| Game.Deal.Remove | core/game.py:388-389 | deleting a card reports whether it was held and removes it when it was |
| Game.Deal.TakeTrick | core/game.py:393-410 | the trick's scoring returns the winner `TrickWinner` gives and ends in the state `Taken` gives |
| Game.Deal.LastTrickBonus | core/game.py:412-421 | the last-trick bonuses end with the scores and capot `LastTrick` gives |
| Game.Deal.PlayTrick | core/game.py:382-426 | `Deal.play_trick` ends in the state and outcome `PlayedTrick` gives, and after the last trick, and only then, adds each player's deal score to that player's partie score |
| Game.Partie.constructor | core/game.py:429-437 | a new partie has the chosen dealer, no deals, zero scores and no winner |
| Game.Partie.NewDeal | core/game.py:439-445 | one fresh deal is appended, whose elder is the one `ElderOf` gives for the deal index |
| Game.Partie.GetFinalScore | core/game.py:447-455 | records the winner and loser and returns the rubicon score `FinalScore` gives |
| Classic.ClassicCardsAreAllCards | classes.py:76 | the rank-major deck has 32 distinct cards, the same ones as `all_cards()` |
| Classic.ClassicShuffle | classes.py:75-77 | a shuffle of the rank-major deck is a shuffle of `all_cards()`, and the other way round |
| Classic.Deck.constructor | classes.py:75-77 | the new deck is the shuffled order of the 32 cards |
| Classic.Deck.Pop | classes.py:82-83 | `pop` takes the last card, or reports an empty deck and changes nothing |
| Classic.DistinctHeldStep | classes.py:105-108 | past a held first card, the remaining cards must be distinct and held once that card is gone |
| Classic.DiscardOne | classes.py:107 | deleting a held card leaves a keyed hand one card smaller, without that card |
| Classic.DiscardAllKeeps | classes.py:105-108 | discarding keeps the hand keyed and only removes cards |
| Classic.DiscardAllSucceeds | classes.py:105-108 | discarding succeeds exactly when the cards are distinct and all held |
| Classic.DiscardAllDone | classes.py:105-108 | a completed discard appends exactly the cards, in order, and shrinks the hand by their number |
| Classic.DiscardAllRemoves | classes.py:105-108 | a completed discard removes exactly the discarded cards from the hand |
| Classic.DiscardAllStops | classes.py:105-108 | a failed discard stops with a `KeyError` at one of the cards, with the cards before it discarded |
| Classic.DiscardAllSpec | classes.py:105-108 | the four facts above together |
| Classic.Player.constructor | classes.py:86-92 | a new player has an empty hand, no discards, score 0 and no deal score |
| Classic.Player.Draw | classes.py:110-112 | drawing stores each card under its key, as `DrawAll` gives, and changes nothing else |
| Classic.Player.Discard | classes.py:105-108 | discarding ends with the hand, discards and error `DiscardAll` gives |
| Classic.IndexOf | classes.py:132 | `list.index` returns the first position holding the value |
| Classic.PointTupleAgrees | classes.py:115-135 | the tuple point is `None` exactly when no suit has four cards, and otherwise the longest suit's length with the largest pip sum among the suits of that length, the same as in core/game.py |
| Classic.ComputeSequencesTuple | classes.py:138-169 | the scan and the ascending sort compute the tuple `SequencesTuple` gives |
| Classic.ShortestFirst | classes.py:166-168 | sorting the same groups in both orders gives the same groups, and the ascending sort's first length is the shortest, which equals the longest exactly when all the groups are as long |
| Classic.SequencesTupleShortest | classes.py:166-168 | the sequences are the runs core/game.py declares, scored by the shortest, which equals core/game.py's score exactly when every run is as long as the longest |
| Classic.SetsTupleShortest | classes.py:179-184 | the sets are the groups core/game.py declares, scored by the smallest, which equals core/game.py's score exactly when every set is as large as the largest |
| Classic.DealToEmptyHands | classes.py:197-200 | dealing a shuffled deck to two empty hands leaves 12 distinct cards each and 8 in the deck |
| Cards.DrawTopApart | classes.py:205 | drawing the top card moves it from the deck into the hand, which grows by one and holds exactly its old cards and that card |
| Classic.DrawEachSpec | classes.py:204-205 | n draws succeed exactly when the deck holds at least n cards, grow the hand by n and take the top n cards; otherwise an `IndexError` once the deck is empty |
| Classic.DrawEachDeck | classes.py:204-205 | n draws fail with `EmptyDeck` exactly when the deck holds fewer than n cards, leaving it empty, and otherwise take its top n cards |
| Classic.DrawEachSize | classes.py:204-205 | n draws of new cards grow a well-keyed hand by one card per draw until the deck runs out |
| Classic.DrawEachHand | classes.py:204-205 | n draws from a deck of at least n cards leave the hand holding exactly its old cards plus the deck's top n cards |
| Classic.ExchangeAllSpec | classes.py:202-205 | the exchange succeeds exactly when the cards are distinct, held and no more than the deck holds; it then keeps the hand's size, takes exactly `len(cards)` cards off the deck and appends `cards` to the discards, and the hand then holds exactly its old cards less `cards` plus the top `len(cards)` cards of the deck; a card not held stops it before any draw |
| Classic.Deal.constructor | classes.py:189-195 | a new deal has the given elder and younger and a new shuffled deck |
| Classic.Deal.DealRound | classes.py:199-200 | one round: the elder and then the younger draw the top card, which is round `i + 1` of the deal from `start` when the table was at round `i`, and the scores stay |
| Classic.Deal.DealCards | classes.py:197-200 | `Deal.deal` leaves the hands and the deck that twelve `DealRounds` give, and touches no discards, scores or deal scores |
| Classic.Deal.Exchange | classes.py:202-205 | `Deal.exchange` ends with the hand, discards, deck and error that `ExchangeAll` gives, and leaves the player's score and deal score alone |
| Classic.Partie.constructor | classes.py:209-213 | the chosen player deals, the other is the non-dealer, and there are no deals yet |
| Classic.Partie.NewDeal | classes.py:215-221 | one fresh deal is appended; the non-dealer is elder at even deal indices and the dealer at odd ones |

## Left out

- Display: `__str__`, `__repr__`, `print_hand`, `Result.score_name` and the `Declaration` wrapper only build text.
- Randomness: the order `shuffle` leaves the deck in and the dealer `choice` picks are parameters.
- The unused constants `Good` (core/game.py) and `Declaration` (classes.py) have no model. `Category` is a datatype instead of strings.
- Hash-set iteration order: the players of a deal are visited elder then younger, and those of a partie `First` then `Second`.
- Ties in the final score: with equal scores `Second` wins, because `sorted` is stable and takes the last element. Python's order would depend on object hashes.
- Back-references: core/game.py's `player.deal` is not modelled. `Game.Deal` keeps its partie as a constant, and `Game.Deal.PlayTrick` modifies it.
- Game.Deal: the two hands sit in the deal, keyed by player, not in separate `Player` objects. `Player.reset` is therefore the empty hands a new deal starts with.
- Game.Deal.PlayTrick: the follower is always the other player. The source takes both players from its arguments and does not forbid the same one twice.
- Game.Deal.DealCards and Classic.Deal.DealCards require at least 24 cards in the deck. The source deals from a full deck once per deal, and the model does not return an `IndexError` from dealing twice.
- Classic.Deal.DealCards requires two distinct players. The `Partie` always supplies two; dealing to one player twice is not modelled.
- Classic.Partie.constructor requires two distinct players. With one player, the set in classes.py collapses and `pop` raises a `KeyError`, which is not modelled.
- classes.py's `Player` is never reset between deals. `Classic.Deal.DealCards` states its result from whatever the players hold. `Classic.DealToEmptyHands` covers only players that hold nothing.
- Dictionary order in classes.py: `suits()` and `sets` list cards in the order they were inserted into the hand. The same holds for `sets` in core/game.py:300-302, which lists a rank's cards in the order they entered the hand, whereas Hands.RankCards lists them in suit order. Sums, lengths and the comparisons by rank do not depend on that order.
- Classic.Deal: the `point_winner`, `sequences_winner` and `sets_winner` fields stay `None` in classes.py and are not modelled.
- Classic.Player: the name is only displayed, and `score` and `deal_score` are never updated in classes.py.

## Findings

| source | as written | input that shows it | evidently intended | confidence | as-written member | corrected member |
|---|---|---|---|---|---|---|
| classes.py:166-168 | sequences are sorted by ascending length, so the score is the length of the shortest declared run | a hand holding 7♢ 8♢ 9♢ and 7♡ 8♡ 9♡ 10♡, with no other run of three: classes.py scores 3, core/game.py scores 4 | score by the longest run, as core/game.py:286-288 does by sorting on descending length | not executed | Classic.SequencesTupleShortest | Hands.SequencesScore |
| classes.py:179-184 | sets are sorted by ascending size, so the score is the size of the smallest set | a hand holding four Aces and three Kings: classes.py scores 3, core/game.py scores 4 | score by the largest set (a quatorze beats a trio), as core/game.py:300-305 does | not executed | Classic.SetsTupleShortest | Hands.SetsScore |
