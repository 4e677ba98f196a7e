/**
 * The queries a player answers about a hand (core/game.py:186-306): the hand
 * split into suits, carte blanche, and the three declarations (point,
 * sequences, sets), each a `Result` ordered by `(score, value)`.
 */
module Hands {
  import opened Lists
  import opened Cards

  datatype Category = Point | Sequences | Sets

  /** A `Result.value`: a pip total for the point, a list of card groups otherwise. */
  datatype Detail = PipTotal(total: int) | Groups(groups: seq<seq<Card>>)

  /** A `Result` without its back-reference to the player. */
  datatype Declaration = Declaration(category: Category, score: int, value: Detail)

  /* ---------------------------------------------------------------- suits */

  /** Every card of suit s, in rank order. */
  function SuitDeck(s: Suit): (r: seq<Card>) {
    seq(8, i requires 0 <= i < 8 => Card(RANKS[i], s))
  }

  /** The held cards of suit s, in ascending rank order. */
  function SuitCards(h: Hand, s: Suit): (r: seq<Card>) {
    Filter(SuitDeck(s), c => c in h.Values)
  }

  ghost predicate Ascending(g: seq<Card>) {
    Chain(g, Below)
  }

  lemma SuitCardsSpec(h: Hand, s: Suit)
    ensures forall c :: c in SuitCards(h, s) <==> c in h.Values && c.suit == s
    ensures Ascending(SuitCards(h, s))
    ensures |SuitCards(h, s)| <= 8
  {
    var deck := SuitDeck(s);
    assert forall k :: 0 <= k < 8 ==> RankIndex(RANKS[k]) == k;
    forall c | c in h.Values && c.suit == s ensures c in SuitCards(h, s) {
      assert RANKS[RankIndex(c.rank)] == c.rank;
      assert deck[RankIndex(c.rank)] == c;
    }
    assert Chain(deck, Below) by {
      forall i, j | 0 <= i < j < 8 ensures Below(deck[i], deck[j]) {
        assert RankIndex(deck[i].rank) == i && RankIndex(deck[j].rank) == j;
      }
    }
    ChainFilter(deck, c => c in h.Values, Below);
  }

  /** The four suits of `Suit.suits`, each as `SuitCards`. */
  function SuitGroups(h: Hand): (r: seq<seq<Card>>) {
    [SuitCards(h, Diamonds), SuitCards(h, Hearts), SuitCards(h, Spades), SuitCards(h, Clubs)]
  }

  function LengthKey(g: seq<Card>): (r: Key) {
    Key(|g|, 0)
  }

  /** `Player.suits`: the four suit groups, stably sorted by size. */
  function SuitsOf(h: Hand): (r: seq<seq<Card>>) {
    SortBy(SuitGroups(h), LengthKey)
  }

  lemma GroupOfSuitsOf(h: Hand, g: seq<Card>)
    requires g in SuitsOf(h)
    ensures exists s :: g == SuitCards(h, s)
  {
    InSortBy(SuitGroups(h), LengthKey, g);
    GroupOfSuitGroups(h, g);
  }

  /** Each of the four suit groups is the group of its suit. */
  lemma GroupOfSuitGroups(h: Hand, g: seq<Card>)
    requires g in SuitGroups(h)
    ensures exists s :: g == SuitCards(h, s)
  {
    if g == SuitGroups(h)[0] {
      assert g == SuitCards(h, Diamonds);
    } else if g == SuitGroups(h)[1] {
      assert g == SuitCards(h, Hearts);
    } else if g == SuitGroups(h)[2] {
      assert g == SuitCards(h, Spades);
    } else {
      assert g == SuitCards(h, Clubs);
    }
  }

  lemma SuitInSuitsOf(h: Hand, s: Suit)
    ensures SuitCards(h, s) in SuitsOf(h)
  {
    SuitInSuitGroups(h, s);
    assert SuitCards(h, s) in multiset(SuitsOf(h));
  }

  lemma SuitInSuitGroups(h: Hand, s: Suit)
    ensures SuitCards(h, s) in SuitGroups(h)
  {
    var g := SuitGroups(h);
    match s
    case Diamonds => assert g[0] == SuitCards(h, s);
    case Hearts => assert g[1] == SuitCards(h, s);
    case Spades => assert g[2] == SuitCards(h, s);
    case Clubs => assert g[3] == SuitCards(h, s);
  }

  lemma SuitsSpec(h: Hand)
    ensures |SuitsOf(h)| == 4
    ensures forall s :: SuitCards(h, s) in SuitsOf(h)
    ensures forall i :: 0 <= i < 4 ==> exists s :: SuitsOf(h)[i] == SuitCards(h, s)
    ensures forall i, j :: 0 <= i < j < 4 ==> |SuitsOf(h)[i]| <= |SuitsOf(h)[j]|
  {
    var suits := SuitsOf(h);
    forall s ensures SuitCards(h, s) in suits {
      SuitInSuitsOf(h, s);
    }
    forall i | 0 <= i < 4 ensures exists s :: suits[i] == SuitCards(h, s) {
      GroupOfSuitsOf(h, suits[i]);
    }
    forall i, j | 0 <= i < j < 4 ensures |suits[i]| <= |suits[j]| {
      assert KeyLe(LengthKey(suits[i]), LengthKey(suits[j]));
    }
  }

  /** `Player.carte_blanche`: no Jack, Queen or King in the hand. */
  predicate CarteBlanche(h: Hand) {
    forall c :: c in h.Values ==> c.rank != Jack && c.rank != Queen && c.rank != King
  }

  /* ---------------------------------------------------------------- point */

  function PipSum(g: seq<Card>): (r: int) {
    if g == [] then 0 else Pips(g[0].rank) + PipSum(g[1..])
  }

  /** Python's `max` over a non-empty list of integers. */
  function MaxOf(xs: seq<int>): (m: int)
    requires xs != []
    ensures m in xs
    ensures forall i :: 0 <= i < |xs| ==> xs[i] <= m
  {
    if |xs| == 1 then xs[0]
    else
      var rest := MaxOf(xs[1..]);
      assert forall i :: 1 <= i < |xs| ==> xs[i] == xs[1..][i - 1];
      if xs[0] >= rest then xs[0] else rest
  }

  /** The suits of the point's length: `point_suits` of `Player.point`. */
  function PointSuits(h: Hand): (r: seq<seq<Card>>)
    ensures SuitsOf(h)[3] in r
    ensures forall k :: 0 <= k < |r| ==> r[k] in SuitsOf(h) && |r[k]| == |SuitsOf(h)[3]|
    ensures forall k :: 0 <= k < 4 && |SuitsOf(h)[k]| == |SuitsOf(h)[3]| ==> SuitsOf(h)[k] in r
  {
    LongestGroups(SuitsOf(h))
  }

  /** The groups as long as the last one, in their order. */
  function LongestGroups(groups: seq<seq<Card>>): (r: seq<seq<Card>>)
    requires |groups| == 4
    ensures groups[3] in r
    ensures forall k :: 0 <= k < |r| ==> r[k] in groups && |r[k]| == |groups[3]|
    ensures forall k :: 0 <= k < 4 && |groups[k]| == |groups[3]| ==> groups[k] in r
  {
    Filter(groups, g => |g| == |groups[3]|)
  }

  function PipSums(groups: seq<seq<Card>>): (r: seq<int>) {
    seq(|groups|, i requires 0 <= i < |groups| => PipSum(groups[i]))
  }

  /** `Player.point`. */
  function PointOf(h: Hand): (r: Declaration) {
    var suits := SuitsOf(h);
    var maxLength := |suits[3]|;
    if maxLength < 4 then Declaration(Point, 0, PipTotal(0))
    else Declaration(Point, maxLength, PipTotal(MaxOf(PipSums(PointSuits(h)))))
  }

  /** The length of the longest suit, as an independent reference for the point. */
  function LongestSuit(h: Hand): (r: int) {
    MaxOf([|SuitCards(h, Diamonds)|, |SuitCards(h, Hearts)|, |SuitCards(h, Spades)|, |SuitCards(h, Clubs)|])
  }

  lemma LongestSuitIs(h: Hand)
    ensures exists s :: |SuitCards(h, s)| == LongestSuit(h)
    ensures forall s :: |SuitCards(h, s)| <= LongestSuit(h)
  {
    var lengths := [|SuitCards(h, Diamonds)|, |SuitCards(h, Hearts)|, |SuitCards(h, Spades)|, |SuitCards(h, Clubs)|];
    forall s ensures |SuitCards(h, s)| <= LongestSuit(h) {
      assert lengths[SuitIndex(s)] == |SuitCards(h, s)|;
    }
  }

  /** The last of the sorted suits is a longest one, of at most eight cards. */
  lemma LastSuitIsLongest(h: Hand)
    ensures |SuitsOf(h)| == 4 && |SuitsOf(h)[3]| == LongestSuit(h) <= 8
  {
    var suits := SuitsOf(h);
    SuitsSpec(h);
    LongestSuitIs(h);
    var s :| suits[3] == SuitCards(h, s);
    SuitCardsSpec(h, s);
    var t :| |SuitCards(h, t)| == LongestSuit(h);
    var m :| 0 <= m < 4 && suits[m] == SuitCards(h, t);
    assert m == 3 || |suits[m]| <= |suits[3]|;
  }

  /** The pip total of the point is that of some suit of the hand as long as the longest. */
  lemma PointTotalAttained(h: Hand)
    requires |SuitsOf(h)[3]| >= 4
    ensures exists s :: |SuitCards(h, s)| == LongestSuit(h) && PipSum(SuitCards(h, s)) == PointOf(h).value.total
  {
    LastSuitIsLongest(h);
    var pointSuits := PointSuits(h);
    var pips := PipSums(pointSuits);
    var i :| 0 <= i < |pips| && pips[i] == MaxOf(pips);
    GroupOfSuitsOf(h, pointSuits[i]);
    var s :| pointSuits[i] == SuitCards(h, s);
    assert |SuitCards(h, s)| == LongestSuit(h) && PipSum(SuitCards(h, s)) == PointOf(h).value.total;
  }

  /** No suit as long as the longest has a larger pip total than the point. */
  lemma PointTotalGreatest(h: Hand, t: Suit)
    requires |SuitsOf(h)[3]| >= 4 && |SuitCards(h, t)| == LongestSuit(h)
    ensures PipSum(SuitCards(h, t)) <= PointOf(h).value.total
  {
    LastSuitIsLongest(h);
    var suits := SuitsOf(h);
    var pointSuits := PointSuits(h);
    SuitInSuitsOf(h, t);
    var m :| 0 <= m < 4 && suits[m] == SuitCards(h, t);
    assert suits[m] in pointSuits;
    PipSumAtMostMax(pointSuits, SuitCards(h, t));
    PointTotalIsMax(h);
  }

  /** From four cards up, the point's value is the largest pip sum among the point suits. */
  lemma PointTotalIsMax(h: Hand)
    requires |SuitsOf(h)[3]| >= 4
    ensures PointOf(h).value == PipTotal(MaxOf(PipSums(PointSuits(h))))
  {
  }

  /** No group among some groups has a pip sum above their largest one. */
  lemma PipSumAtMostMax(groups: seq<seq<Card>>, g: seq<Card>)
    requires g in groups
    ensures PipSum(g) <= MaxOf(PipSums(groups))
  {
    var k :| 0 <= k < |groups| && groups[k] == g;
    assert PipSums(groups)[k] == PipSum(g);
  }

  /**
   * Below four cards the point is nil; otherwise its score is the length of the
   * longest suit and its value the largest pip sum among the suits of that length.
   */
  lemma PointSpec(h: Hand)
    ensures PointOf(h).category == Point && PointOf(h).value.PipTotal?
    ensures LongestSuit(h) < 4 ==> PointOf(h).score == 0 && PointOf(h).value.total == 0
    ensures LongestSuit(h) >= 4 ==> PointOf(h).score == LongestSuit(h) <= 8
    ensures LongestSuit(h) >= 4 ==>
      (exists s :: |SuitCards(h, s)| == LongestSuit(h) && PipSum(SuitCards(h, s)) == PointOf(h).value.total)
    ensures LongestSuit(h) >= 4 ==>
      forall s :: |SuitCards(h, s)| == LongestSuit(h) ==> PipSum(SuitCards(h, s)) <= PointOf(h).value.total
  {
    LastSuitIsLongest(h);
    if LongestSuit(h) >= 4 {
      PointTotalAttained(h);
      forall t | |SuitCards(h, t)| == LongestSuit(h) ensures PipSum(SuitCards(h, t)) <= PointOf(h).value.total {
        PointTotalGreatest(h, t);
      }
    }
  }

  /* ------------------------------------------------------------ sequences */

  /** Positions a..b of a suit hold cards whose ranks rise by one at each step. */
  ghost predicate IsRun(suit: seq<Card>, a: int, b: int) {
    0 <= a < b <= |suit| && forall k :: a < k < b ==> Distance(suit[k], suit[k - 1]) == 1
  }

  /** Cards whose ranks rise by exactly one from each card to the next. */
  ghost predicate Consecutive(run: seq<Card>) {
    forall k :: 0 < k < |run| ==> Distance(run[k], run[k - 1]) == 1
  }

  /**
   * The run a..b is a longest run of the suit among those ending by position n,
   * and the first one of that length.
   */
  ghost predicate BestUpTo(suit: seq<Card>, n: int, a: int, b: int) {
    IsRun(suit, a, b) && b <= n &&
    forall c, d :: IsRun(suit, c, d) && d <= n ==> d - c < b - a || (d - c == b - a && a <= c)
  }

  /** Where the inner scan stops when it has reached `runner`. */
  function RunEnd(suit: seq<Card>, runner: nat): (e: nat)
    requires 0 < runner <= |suit|
    ensures runner <= e <= |suit|
    decreases |suit| - runner
  {
    if runner < |suit| && Distance(suit[runner], suit[runner - 1]) == 1 then RunEnd(suit, runner + 1)
    else runner
  }

  /** The outer scan from position i, with the longest run found so far. */
  function LongestFrom(suit: seq<Card>, i: nat, longest: seq<Card>): (r: seq<Card>)
    requires i <= |suit|
    decreases |suit| - i
  {
    if i == |suit| then longest
    else
      var e := RunEnd(suit, i + 1);
      LongestFrom(suit, e, if e - i > |longest| then suit[i..e] else longest)
  }

  /** What the `while` scan of `Player.sequences` keeps for one suit. */
  function LongestRun(suit: seq<Card>): (r: seq<Card>) {
    LongestFrom(suit, 0, [])
  }

  /** The scan of core/game.py:262-282, with its two loops. */
  method ScanLongestRun(suit: seq<Card>) returns (longest: seq<Card>)
    ensures longest == LongestRun(suit)
  {
    longest := [];
    var i := 0;
    var runner := 1;
    while i < |suit|
      invariant 0 <= i <= |suit| && runner == i + 1
      invariant LongestFrom(suit, i, longest) == LongestRun(suit)
      decreases |suit| - i
    {
      var run := [suit[i]];
      while runner < |suit|
        invariant i < runner <= |suit|
        invariant run == suit[i..runner]
        invariant RunEnd(suit, runner) == RunEnd(suit, i + 1)
        decreases |suit| - runner
      {
        var card := suit[runner - 1];
        var nextCard := suit[runner];
        if Distance(nextCard, card) == 1 {
          assert suit[i..runner + 1] == suit[i..runner] + [nextCard];
          runner := runner + 1;
          run := run + [nextCard];
        } else {
          break;
        }
      }
      assert runner == RunEnd(suit, i + 1) && run == suit[i..runner];
      if |run| > |longest| {
        longest := run;
      }
      i := runner;
      runner := i + 1;
    }
  }

  lemma {:induction false} RunEndIsRun(suit: seq<Card>, i: nat, runner: nat)
    requires i < runner <= |suit| && IsRun(suit, i, runner)
    ensures IsRun(suit, i, RunEnd(suit, runner))
    ensures RunEnd(suit, runner) == |suit| ||
      Distance(suit[RunEnd(suit, runner)], suit[RunEnd(suit, runner) - 1]) != 1
    decreases |suit| - runner
  {
    if runner < |suit| && Distance(suit[runner], suit[runner - 1]) == 1 {
      RunEndIsRun(suit, i, runner + 1);
    }
  }

  /** A run never crosses a position where the ranks do not rise by one. */
  lemma RunWithin(suit: seq<Card>, c: int, d: int, i: int)
    requires IsRun(suit, c, d) && 0 < i < |suit| && Distance(suit[i], suit[i - 1]) != 1
    ensures d <= i || i <= c
  {
  }

  lemma {:induction false} LongestFromSpec(suit: seq<Card>, i: nat, longest: seq<Card>, a: int, b: int)
    returns (a': int, b': int)
    requires i <= |suit|
    requires i == 0 || i == |suit| || Distance(suit[i], suit[i - 1]) != 1
    requires (i == 0 && longest == []) || (0 < i && BestUpTo(suit, i, a, b) && longest == suit[a..b])
    ensures suit != [] ==> BestUpTo(suit, |suit|, a', b') && LongestFrom(suit, i, longest) == suit[a'..b']
    decreases |suit| - i
  {
    if i == |suit| {
      a', b' := a, b;
    } else {
      var e := RunEnd(suit, i + 1);
      var na, nb, next := BestExtends(suit, i, longest, a, b);
      a', b' := LongestFromSpec(suit, e, next, na, nb);
    }
  }

  /**
   * One pass of the outer scan: the run from position i, kept when it is
   * longer, leaves the best run up to its end, and the scan goes on from there.
   */
  lemma BestExtends(suit: seq<Card>, i: nat, longest: seq<Card>, a: int, b: int)
    returns (na: int, nb: int, next: seq<Card>)
    requires i < |suit|
    requires i == 0 || Distance(suit[i], suit[i - 1]) != 1
    requires (i == 0 && longest == []) || (0 < i && BestUpTo(suit, i, a, b) && longest == suit[a..b])
    ensures var e := RunEnd(suit, i + 1);
      0 < e && BestUpTo(suit, e, na, nb) && next == suit[na..nb] &&
      (e == |suit| || Distance(suit[e], suit[e - 1]) != 1) &&
      LongestFrom(suit, i, longest) == LongestFrom(suit, e, next)
  {
    var e := RunEnd(suit, i + 1);
    RunEndIsRun(suit, i, i + 1);
    if e - i > |longest| {
      na, nb, next := i, e, suit[i..e];
      NewRunBest(suit, i, e, a, b);
    } else {
      na, nb, next := a, b, longest;
      OldRunBest(suit, i, e, a, b);
    }
    assert LongestFrom(suit, i, longest) == LongestFrom(suit, e, next);
  }

  /** A run from i that is longer than the best one before i is the best one up to its end. */
  lemma NewRunBest(suit: seq<Card>, i: nat, e: int, a: int, b: int)
    requires IsRun(suit, i, e)
    requires i == 0 || (Distance(suit[i], suit[i - 1]) != 1 && BestUpTo(suit, i, a, b) && b - a < e - i)
    ensures BestUpTo(suit, e, i, e)
  {
    forall c, d | IsRun(suit, c, d) && d <= e ensures d - c < e - i || (d - c == e - i && i <= c) {
      if 0 < i && i < d {
        RunWithin(suit, c, d, i);
      }
    }
  }

  /** A run from i that is no longer than the best one before i leaves that one the best. */
  lemma OldRunBest(suit: seq<Card>, i: nat, e: int, a: int, b: int)
    requires 0 < i && IsRun(suit, i, e)
    requires Distance(suit[i], suit[i - 1]) != 1 && BestUpTo(suit, i, a, b) && e - i <= b - a
    ensures BestUpTo(suit, e, a, b)
  {
    forall c, d | IsRun(suit, c, d) && d <= e ensures d - c < b - a || (d - c == b - a && a <= c) {
      if i < d {
        RunWithin(suit, c, d, i);
      }
    }
  }

  /** The longest run of a suit, and among runs of that length the first. */
  ghost predicate IsLongestRun(suit: seq<Card>, a: int, b: int) {
    BestUpTo(suit, |suit|, a, b)
  }

  lemma LongestRunSpec(suit: seq<Card>)
    ensures suit == [] ==> LongestRun(suit) == []
    ensures suit != [] ==> exists a, b :: IsLongestRun(suit, a, b) && LongestRun(suit) == suit[a..b]
  {
    var a, b := LongestFromSpec(suit, 0, [], 0, 0);
  }

  /** The longest run of a suit of the hand is consecutive, of that suit and held. */
  lemma RunOfSuit(h: Hand, s: Suit)
    ensures Consecutive(LongestRun(SuitCards(h, s)))
    ensures forall c :: c in LongestRun(SuitCards(h, s)) ==> c.suit == s && c in h.Values
    ensures |LongestRun(SuitCards(h, s))| <= 8
  {
    var g := SuitCards(h, s);
    SuitCardsSpec(h, s);
    LongestRunSpec(g);
    if g != [] {
      var a, b :| IsLongestRun(g, a, b) && LongestRun(g) == g[a..b];
      var r := g[a..b];
      forall k | 0 < k < |r| ensures Distance(r[k], r[k - 1]) == 1 {
        assert r[k] == g[a + k] && r[k - 1] == g[a + k - 1];
      }
    }
  }

  predicate LongEnough(g: seq<Card>) {
    |g| >= 3
  }

  /** The sort key of core/game.py:287 and :304: longest first, then highest lowest card. */
  function GroupKey(g: seq<Card>): (r: Key) {
    if g == [] then Key(0, 0) else Key(-|g|, -Value(g[0].rank))
  }

  function RunsOf(suits: seq<seq<Card>>): (r: seq<seq<Card>>) {
    seq(|suits|, i requires 0 <= i < |suits| => LongestRun(suits[i]))
  }

  /** The runs `Player.sequences` declares: those of three cards or more, sorted. */
  function DeclaredSequences(h: Hand): (r: seq<seq<Card>>)
    ensures forall k :: 0 <= k < |r| ==> LongEnough(r[k])
  {
    SortedLongRuns(RunsOf(SuitsOf(h)))
  }

  /** The runs of three cards or more, longest first. */
  function SortedLongRuns(runs: seq<seq<Card>>): (r: seq<seq<Card>>)
    ensures forall k :: 0 <= k < |r| ==> LongEnough(r[k])
  {
    var kept := Filter(runs, LongEnough);
    var r := SortBy(kept, GroupKey);
    assert forall k :: 0 <= k < |r| ==> r[k] in multiset(kept);
    r
  }

  /** `Player.sequences`. */
  function SequencesOf(h: Hand): (r: Declaration) {
    var sequences := DeclaredSequences(h);
    Declaration(Sequences, if sequences == [] then 0 else |sequences[0]|, Groups(sequences))
  }

  /** The `for suit in suits` loop of `Player.sequences`: one scan per suit. */
  method ScanSuits(suits: seq<seq<Card>>) returns (sequences: seq<seq<Card>>)
    ensures sequences == RunsOf(suits)
  {
    sequences := [];
    for k := 0 to |suits|
      invariant |sequences| == k
      invariant forall i :: 0 <= i < k ==> sequences[i] == LongestRun(suits[i])
    {
      var longest := ScanLongestRun(suits[k]);
      sequences := sequences + [longest];
    }
  }

  /** `Player.sequences` as the source computes it: one scan per suit, then a sort. */
  method ComputeSequences(h: Hand) returns (d: Declaration)
    ensures d == SequencesOf(h)
  {
    var sequences := ScanSuits(SuitsOf(h));
    var kept := SortBy(Filter(sequences, LongEnough), GroupKey);
    d := Declaration(Sequences, if kept == [] then 0 else |kept[0]|, Groups(kept));
  }

  predicate SuitApart(x: seq<Card>, y: seq<Card>) {
    x == [] || y == [] || x[0].suit != y[0].suit
  }

  /** A suit's group, when it is not empty, starts with a card of that suit. */
  lemma SuitLead(h: Hand, s: Suit)
    ensures SuitCards(h, s) == [] || SuitCards(h, s)[0].suit == s
  {
    SuitCardsSpec(h, s);
    if SuitCards(h, s) != [] {
      assert SuitCards(h, s)[0] in SuitCards(h, s);
    }
  }

  lemma SuitGroupsApart(h: Hand)
    ensures Pairwise(SuitGroups(h), SuitApart)
  {
    forall s ensures SuitCards(h, s) == [] || SuitCards(h, s)[0].suit == s {
      SuitLead(h, s);
    }
  }

  lemma RunLead(h: Hand, s: Suit)
    ensures LongestRun(SuitCards(h, s)) == [] ||
      (SuitCards(h, s) != [] && LongestRun(SuitCards(h, s))[0].suit == SuitCards(h, s)[0].suit)
  {
    var r := LongestRun(SuitCards(h, s));
    RunOfSuit(h, s);
    SuitLead(h, s);
    LongestRunSpec(SuitCards(h, s));
    if r != [] {
      assert r[0] in r;
    }
  }

  /** The runs kept for each suit of the hand, each one's suit differing from the others'. */
  lemma RunsApart(h: Hand)
    ensures Pairwise(RunsOf(SuitsOf(h)), SuitApart)
  {
    var suits: seq<seq<Card>> := SuitsOf(h);
    var runs: seq<seq<Card>> := RunsOf(suits);
    SuitGroupsApart(h);
    PairwisePermutation(suits, SuitGroups(h), SuitApart);
    SuitsSpec(h);
    forall i | 0 <= i < |suits|
      ensures runs[i] == [] || (suits[i] != [] && runs[i][0].suit == suits[i][0].suit)
    {
      var s :| suits[i] == SuitCards(h, s);
      RunLead(h, s);
    }
    forall i, j | 0 <= i < |runs| && 0 <= j < |runs| && i != j ensures SuitApart(runs[i], runs[j]) {
      assert SuitApart(suits[i], suits[j]);
    }
  }

  lemma RunIsOfSuit(h: Hand, r: seq<Card>)
    requires r in RunsOf(SuitsOf(h))
    ensures exists s :: r == LongestRun(SuitCards(h, s))
  {
    var suits := SuitsOf(h);
    var m :| 0 <= m < |suits| && RunsOf(suits)[m] == r;
    GroupOfSuitsOf(h, suits[m]);
  }

  /**
   * Every declared sequence is the longest run of one suit of the hand, held,
   * of at least three cards.
   */
  lemma SequencesAreRuns(h: Hand)
    ensures var runs := DeclaredSequences(h);
      forall k :: 0 <= k < |runs| ==>
        3 <= |runs[k]| <= 8 && Consecutive(runs[k]) &&
        runs[k] == LongestRun(SuitCards(h, runs[k][0].suit)) &&
        forall c :: c in runs[k] ==> c.suit == runs[k][0].suit && c in h.Values
  {
    var runs: seq<seq<Card>> := DeclaredSequences(h);
    forall k | 0 <= k < |runs|
      ensures 3 <= |runs[k]| <= 8 && Consecutive(runs[k]) &&
        runs[k] == LongestRun(SuitCards(h, runs[k][0].suit)) &&
        forall c :: c in runs[k] ==> c.suit == runs[k][0].suit && c in h.Values
    {
      DeclaredRunIsRun(h, runs[k]);
    }
  }

  lemma DeclaredInRuns(h: Hand, r: seq<Card>)
    requires r in DeclaredSequences(h)
    ensures r in RunsOf(SuitsOf(h))
  {
    var kept := Filter(RunsOf(SuitsOf(h)), LongEnough);
    assert DeclaredSequences(h) == SortBy(kept, GroupKey);
    assert r in multiset(DeclaredSequences(h));
    assert r in multiset(kept);
    var m :| 0 <= m < |kept| && kept[m] == r;
  }

  lemma DeclaredRunIsRun(h: Hand, r: seq<Card>)
    requires r in DeclaredSequences(h)
    ensures 3 <= |r| <= 8 && Consecutive(r) && r == LongestRun(SuitCards(h, r[0].suit))
    ensures forall c :: c in r ==> c.suit == r[0].suit && c in h.Values
  {
    DeclaredInRuns(h, r);
    RunIsOfSuit(h, r);
    var s :| r == LongestRun(SuitCards(h, s));
    RunOfSuit(h, s);
    assert r[0] in r;
  }

  /** No two declared sequences share a suit. */
  lemma SequencesApart(h: Hand)
    ensures var runs := DeclaredSequences(h);
      forall i, j :: 0 <= i < |runs| && 0 <= j < |runs| && i != j ==> runs[i][0].suit != runs[j][0].suit
  {
    var all := RunsOf(SuitsOf(h));
    var kept := Filter(all, LongEnough);
    var runs: seq<seq<Card>> := DeclaredSequences(h);
    RunsApart(h);
    PairwiseFilter(all, LongEnough, SuitApart);
    PairwisePermutation(runs, kept, SuitApart);
    forall i, j | 0 <= i < |runs| && 0 <= j < |runs| && i != j ensures runs[i][0].suit != runs[j][0].suit {
      assert SuitApart(runs[i], runs[j]);
    }
  }

  /** Longer sequences come first, and among equal lengths the higher ones. */
  lemma SequencesOrdered(h: Hand)
    ensures var runs := DeclaredSequences(h);
      forall i, j :: 0 <= i < j < |runs| ==>
        |runs[i]| > |runs[j]| || (|runs[i]| == |runs[j]| && Value(runs[i][0].rank) >= Value(runs[j][0].rank))
  {
    var runs: seq<seq<Card>> := DeclaredSequences(h);
    SequencesAreRuns(h);
    forall i, j | 0 <= i < j < |runs|
      ensures |runs[i]| > |runs[j]| || (|runs[i]| == |runs[j]| && Value(runs[i][0].rank) >= Value(runs[j][0].rank))
    {
      assert KeyLe(GroupKey(runs[i]), GroupKey(runs[j]));
    }
  }

  /** Every suit whose longest run has three cards or more is declared. */
  lemma SequencesComplete(h: Hand)
    ensures forall s :: |LongestRun(SuitCards(h, s))| >= 3 ==> LongestRun(SuitCards(h, s)) in DeclaredSequences(h)
  {
    var suits := SuitsOf(h);
    var all := RunsOf(suits);
    var kept := Filter(all, LongEnough);
    var runs := DeclaredSequences(h);
    SuitsSpec(h);
    forall s | |LongestRun(SuitCards(h, s))| >= 3 ensures LongestRun(SuitCards(h, s)) in runs {
      var m :| 0 <= m < 4 && suits[m] == SuitCards(h, s);
      assert all[m] == LongestRun(SuitCards(h, s));
      assert all[m] in kept;
      assert all[m] in multiset(runs);
    }
  }

  /** The score of the sequences is the length of the first declared one, or 0. */
  lemma SequencesScore(h: Hand)
    ensures SequencesOf(h).category == Sequences && SequencesOf(h).value == Groups(DeclaredSequences(h))
    ensures SequencesOf(h).score == (if DeclaredSequences(h) == [] then 0 else |DeclaredSequences(h)[0]|)
    ensures SequencesOf(h).score == 0 || 3 <= SequencesOf(h).score <= 8
  {
    SequencesAreRuns(h);
  }

  /* ----------------------------------------------------------------- sets */

  /** The ranks that can form a set, in the order core/game.py:293-299 lists them. */
  const ELIGIBLE_RANKS: seq<Rank> := [Ace, King, Queen, Jack, Ten]

  /** The held cards of rank r, in suit order. */
  function RankCards(h: Hand, r: Rank): (v: seq<Card>) {
    Filter(seq(4, i requires 0 <= i < 4 => Card(r, SUITS[i])), c => c in h.Values)
  }

  lemma RankCardsSpec(h: Hand, r: Rank)
    ensures forall c :: c in RankCards(h, r) <==> c in h.Values && c.rank == r
    ensures |RankCards(h, r)| <= 4
  {
    var row := seq(4, i requires 0 <= i < 4 => Card(r, SUITS[i]));
    forall c | c in h.Values && c.rank == r ensures c in RankCards(h, r) {
      assert SUITS[SuitIndex(c.suit)] == c.suit;
      assert row[SuitIndex(c.suit)] == c;
    }
  }

  function SetGroups(h: Hand): (r: seq<seq<Card>>) {
    seq(5, i requires 0 <= i < 5 => RankCards(h, ELIGIBLE_RANKS[i]))
  }

  /** The groups `Player.sets` declares: those of three cards or more, sorted. */
  function DeclaredSets(h: Hand): (r: seq<seq<Card>>)
    ensures forall k :: 0 <= k < |r| ==> LongEnough(r[k])
  {
    var kept := Filter(SetGroups(h), LongEnough);
    var r := SortBy(kept, GroupKey);
    assert forall k :: 0 <= k < |r| ==> r[k] in multiset(kept);
    r
  }

  /** `Player.sets`. */
  function SetsOf(h: Hand): (r: Declaration) {
    var sets := DeclaredSets(h);
    Declaration(Sets, if sets == [] then 0 else |sets[0]|, Groups(sets))
  }

  predicate RankApart(x: seq<Card>, y: seq<Card>) {
    x == [] || y == [] || x[0].rank != y[0].rank
  }

  lemma RankCardsLead(h: Hand, r: Rank)
    ensures RankCards(h, r) == [] || RankCards(h, r)[0].rank == r
  {
    RankCardsSpec(h, r);
    if RankCards(h, r) != [] {
      assert RankCards(h, r)[0] in RankCards(h, r);
    }
  }

  /** Every declared set holds every held card of one rank from Ten to Ace, at least three. */
  lemma SetsAreGroups(h: Hand)
    ensures var sets := DeclaredSets(h);
      forall k :: 0 <= k < |sets| ==>
        3 <= |sets[k]| <= 4 && sets[k][0].rank in ELIGIBLE_RANKS && sets[k] == RankCards(h, sets[k][0].rank)
  {
    var groups := SetGroups(h);
    var kept := Filter(groups, LongEnough);
    var sets: seq<seq<Card>> := DeclaredSets(h);
    forall k | 0 <= k < |sets|
      ensures 3 <= |sets[k]| <= 4 && sets[k][0].rank in ELIGIBLE_RANKS && sets[k] == RankCards(h, sets[k][0].rank)
    {
      assert sets[k] in multiset(kept);
      assert sets[k] in groups;
      var m :| 0 <= m < 5 && groups[m] == sets[k];
      RankCardsSpec(h, ELIGIBLE_RANKS[m]);
      RankCardsLead(h, ELIGIBLE_RANKS[m]);
    }
  }

  lemma SetGroupsApart(h: Hand)
    ensures Pairwise(SetGroups(h), RankApart)
  {
    forall r ensures RankCards(h, r) == [] || RankCards(h, r)[0].rank == r {
      RankCardsLead(h, r);
    }
  }

  /** Larger sets come first, and among equal sizes the higher rank. */
  lemma SetsOrdered(h: Hand)
    ensures var sets := DeclaredSets(h);
      forall i, j :: 0 <= i < j < |sets| ==>
        |sets[i]| > |sets[j]| || (|sets[i]| == |sets[j]| && Value(sets[i][0].rank) > Value(sets[j][0].rank))
  {
    var groups := SetGroups(h);
    var kept := Filter(groups, LongEnough);
    var sets: seq<seq<Card>> := DeclaredSets(h);
    SetGroupsApart(h);
    PairwiseFilter(groups, LongEnough, RankApart);
    PairwisePermutation(sets, kept, RankApart);
    SetsAreGroups(h);
    forall i, j | 0 <= i < j < |sets|
      ensures |sets[i]| > |sets[j]| || (|sets[i]| == |sets[j]| && Value(sets[i][0].rank) > Value(sets[j][0].rank))
    {
      assert KeyLe(GroupKey(sets[i]), GroupKey(sets[j]));
      assert RankApart(sets[i], sets[j]);
    }
  }

  /** Every rank from Ten to Ace held three or four times is declared. */
  lemma SetsComplete(h: Hand)
    ensures forall r :: r in ELIGIBLE_RANKS && |RankCards(h, r)| >= 3 ==> RankCards(h, r) in DeclaredSets(h)
  {
    var groups := SetGroups(h);
    var kept := Filter(groups, LongEnough);
    var sets := DeclaredSets(h);
    forall r | r in ELIGIBLE_RANKS && |RankCards(h, r)| >= 3 ensures RankCards(h, r) in sets {
      var m :| 0 <= m < 5 && ELIGIBLE_RANKS[m] == r;
      assert groups[m] == RankCards(h, r);
      assert groups[m] in kept;
      assert groups[m] in multiset(sets);
    }
  }

  /** The score of the sets is the size of the first declared one: 0, 3 or 4. */
  lemma SetsScore(h: Hand)
    ensures SetsOf(h).category == Sets && SetsOf(h).value == Groups(DeclaredSets(h))
    ensures SetsOf(h).score == (if DeclaredSets(h) == [] then 0 else |DeclaredSets(h)[0]|)
    ensures SetsOf(h).score in {0, 3, 4}
  {
    SetsAreGroups(h);
  }

  /* --------------------------------------------------------- result order */

  /** Python's `<` on two lists of integers. */
  predicate IntsLess(x: seq<int>, y: seq<int>) {
    if x == [] || y == [] then |x| < |y|
    else if x[0] != y[0] then x[0] < y[0]
    else IntsLess(x[1..], y[1..])
  }

  /** The ranks of a card group: what `==` and `<` on two such lists look at. */
  function RankValues(g: seq<Card>): (r: seq<int>) {
    seq(|g|, i requires 0 <= i < |g| => Value(g[i].rank))
  }

  /** Python's `<` on two lists of cards, element by element with `Card.__eq__` and `Card.__lt__`. */
  predicate CardsLess(x: seq<Card>, y: seq<Card>) {
    if x == [] || y == [] then |x| < |y|
    else if !SameRank(x[0], y[0]) then Below(x[0], y[0])
    else CardsLess(x[1..], y[1..])
  }

  /** Python's `==` on two lists of cards: the same length and `Card.__eq__` position by position. */
  ghost predicate CardsEqual(x: seq<Card>, y: seq<Card>) {
    |x| == |y| && forall i :: 0 <= i < |x| ==> SameRank(x[i], y[i])
  }

  /**
   * Comparing two lists of cards with the card operators is comparing their
   * lists of rank values, which is how `RankValues` lets the model compare groups.
   */
  lemma {:induction false} CardsCompareByRank(x: seq<Card>, y: seq<Card>)
    ensures CardsLess(x, y) <==> IntsLess(RankValues(x), RankValues(y))
    ensures CardsEqual(x, y) <==> RankValues(x) == RankValues(y)
    decreases |x|
  {
    var rx, ry := RankValues(x), RankValues(y);
    if x != [] && y != [] {
      assert rx[0] == Value(x[0].rank) && ry[0] == Value(y[0].rank);
      assert RankValues(x[1..]) == rx[1..] && RankValues(y[1..]) == ry[1..];
      CardsCompareByRank(x[1..], y[1..]);
      if CardsEqual(x, y) {
        forall i | 0 <= i < |x| ensures rx[i] == ry[i] {
          assert SameRank(x[i], y[i]);
        }
      }
      if rx == ry {
        forall i | 0 <= i < |x| ensures SameRank(x[i], y[i]) {
          assert rx[i] == ry[i];
        }
      }
    } else if rx == ry {
      assert |x| == |rx| == |ry| == |y|;
    }
  }

  /** Python's `<` on two lists of card groups, with cards compared by rank. */
  predicate GroupsLess(x: seq<seq<Card>>, y: seq<seq<Card>>) {
    if x == [] || y == [] then |x| < |y|
    else if RankValues(x[0]) != RankValues(y[0]) then IntsLess(RankValues(x[0]), RankValues(y[0]))
    else GroupsLess(x[1..], y[1..])
  }

  predicate DetailLess(a: Detail, b: Detail) {
    match (a, b)
    case (PipTotal(x), PipTotal(y)) => x < y
    case (Groups(x), Groups(y)) => GroupsLess(x, y)
    case _ => false
  }

  /** `Result.__lt__`: `(score, value) < (score, value)`. */
  predicate Less(a: Declaration, b: Declaration) {
    a.score < b.score || (a.score == b.score && DetailLess(a.value, b.value))
  }

  /** The ranks of every group: what `Result.__eq__` compares besides the score. */
  function ValueKey(d: Detail): (r: seq<seq<int>>) {
    match d
    case PipTotal(x) => [[x]]
    case Groups(g) => seq(|g|, i requires 0 <= i < |g| => RankValues(g[i]))
  }

  lemma {:induction false} IntsLessOrder(x: seq<int>, y: seq<int>)
    ensures IntsLess(x, y) ==> !IntsLess(y, x)
    ensures x != y ==> IntsLess(x, y) || IntsLess(y, x)
    decreases |x|
  {
    if x != [] && y != [] && x[0] == y[0] {
      IntsLessOrder(x[1..], y[1..]);
      if x != y {
        assert x == [x[0]] + x[1..] && y == [y[0]] + y[1..];
      }
    }
  }

  lemma {:induction false} GroupsLessOrder(x: seq<seq<Card>>, y: seq<seq<Card>>)
    ensures GroupsLess(x, y) ==> !GroupsLess(y, x)
    ensures ValueKey(Groups(x)) != ValueKey(Groups(y)) ==> GroupsLess(x, y) || GroupsLess(y, x)
    ensures ValueKey(Groups(x)) == ValueKey(Groups(y)) ==> !GroupsLess(x, y)
    decreases |x|
  {
    var kx, ky := ValueKey(Groups(x)), ValueKey(Groups(y));
    if x != [] && y != [] {
      var a, b := RankValues(x[0]), RankValues(y[0]);
      IntsLessOrder(a, b);
      var tx, ty := ValueKey(Groups(x[1..])), ValueKey(Groups(y[1..]));
      assert kx == [a] + tx && ky == [b] + ty;
      assert kx[0] == a && ky[0] == b && kx[1..] == tx && ky[1..] == ty;
      if a == b {
        GroupsLessOrder(x[1..], y[1..]);
        assert GroupsLess(x, y) == GroupsLess(x[1..], y[1..]);
        assert GroupsLess(y, x) == GroupsLess(y[1..], x[1..]);
        assert kx == ky <==> tx == ty;
      } else {
        assert kx != ky;
        assert GroupsLess(x, y) == IntsLess(a, b);
        assert GroupsLess(y, x) == IntsLess(b, a);
      }
    } else if kx != ky {
      assert |x| != |y|;
    }
  }

  /** Python's list `<` on integer lists is transitive. */
  lemma {:induction false} IntsLessTransitive(x: seq<int>, y: seq<int>, z: seq<int>)
    ensures IntsLess(x, y) && IntsLess(y, z) ==> IntsLess(x, z)
    decreases |x|
  {
    if x != [] && y != [] && z != [] && x[0] == y[0] && y[0] == z[0] {
      IntsLessTransitive(x[1..], y[1..], z[1..]);
    }
  }

  /** List `<` on card groups, comparing each group's ranks, is transitive. */
  lemma {:induction false} GroupsLessTransitive(x: seq<seq<Card>>, y: seq<seq<Card>>, z: seq<seq<Card>>)
    ensures GroupsLess(x, y) && GroupsLess(y, z) ==> GroupsLess(x, z)
    decreases |x|
  {
    if x != [] && y != [] && z != [] {
      var a, b, c := RankValues(x[0]), RankValues(y[0]), RankValues(z[0]);
      if a == b && b == c {
        GroupsLessTransitive(x[1..], y[1..], z[1..]);
      } else if a != b && b != c {
        IntsLessTransitive(a, b, c);
        IntsLessOrder(a, b);
      }
    }
  }

  /**
   * Of two declarations of one category, never is each below the other, and
   * one is below the other unless `Result.__eq__` holds.
   */
  lemma LessOrder(a: Declaration, b: Declaration)
    requires a.value.PipTotal? == b.value.PipTotal?
    ensures Less(a, b) ==> !Less(b, a)
    ensures !Less(a, b) && !Less(b, a) <==> a.score == b.score && ValueKey(a.value) == ValueKey(b.value)
  {
    if a.value.Groups? {
      GroupsLessOrder(a.value.groups, b.value.groups);
      GroupsLessOrder(b.value.groups, a.value.groups);
    } else {
      assert ValueKey(a.value)[0][0] == a.value.total && ValueKey(b.value)[0][0] == b.value.total;
    }
  }

  /** `Result.__lt__` is transitive, so with LessOrder it is a strict order on declarations of one category. */
  lemma LessTransitive(a: Declaration, b: Declaration, c: Declaration)
    ensures Less(a, b) && Less(b, c) ==> Less(a, c)
  {
    if a.value.Groups? && b.value.Groups? && c.value.Groups? {
      GroupsLessTransitive(a.value.groups, b.value.groups, c.value.groups);
    }
  }
}
