/** The opening of main (main.c:32-48, 58): a hidden deck of numPacks packs,
    shuffled; eight rounds of dealing, hand 1 first, each card drawn from the
    top of the hidden deck; both hands sorted by rank; PlayerOne to move. */
module Dealing {
  import opened Cards
  import opened Shuffling
  import opened RankOrder
  import opened PackOrder
  import opened GameLoop

  datatype Dealt = Dealt(hidden: seq<Card>, hand1: seq<Card>, hand2: seq<Card>)

  /** rounds rounds of the deal loop on a hidden deck h: each round draws the
      top card into hand 1 and then the next one into hand 2. */
  function Deal(h: seq<Card>, rounds: nat): (d: Dealt)
    requires 2 * rounds <= |h|
    ensures |d.hidden| == |h| - 2 * rounds && |d.hand1| == rounds && |d.hand2| == rounds
  {
    if rounds == 0 then Dealt(h, [], [])
    else
      var d := Deal(h, rounds - 1);
      var n := |d.hidden|;
      Dealt(d.hidden[..n - 2], d.hand1 + [d.hidden[n - 1]], d.hand2 + [d.hidden[n - 2]])
  }

  /** The deal loses no card and adds none. */
  lemma {:induction false} DealKeepsCards(h: seq<Card>, rounds: nat)
    requires 2 * rounds <= |h|
    ensures var d := Deal(h, rounds); multiset(d.hidden + d.hand1 + d.hand2) == multiset(h)
  {
    if rounds > 0 {
      DealKeepsCards(h, rounds - 1);
      var d := Deal(h, rounds - 1);
      DealRoundKeepsCards(d.hidden, d.hand1, d.hand2);
    }
  }

  /** One round moves the top two hidden cards into the hands. */
  lemma DealRoundKeepsCards(hidden: seq<Card>, hand1: seq<Card>, hand2: seq<Card>)
    requires |hidden| >= 2
    ensures var n := |hidden|;
      multiset(hidden[..n - 2] + (hand1 + [hidden[n - 1]]) + (hand2 + [hidden[n - 2]]))
      == multiset(hidden + hand1 + hand2)
  {
    var n := |hidden|;
    assert hidden == hidden[..n - 2] + [hidden[n - 2]] + [hidden[n - 1]];
  }

  /** Where each dealt card comes from: hand 1 receives the cards at
      |h| - 1, |h| - 3, ..., hand 2 those at |h| - 2, |h| - 4, ..., and the
      hidden deck keeps its bottom |h| - 2 * rounds cards in place. */
  lemma {:induction false} DealAt(h: seq<Card>, rounds: nat)
    requires 2 * rounds <= |h|
    ensures var d := Deal(h, rounds);
      d.hidden == h[..|h| - 2 * rounds]
      && (forall i :: 0 <= i < rounds ==> d.hand1[i] == h[|h| - 1 - 2 * i])
      && (forall i :: 0 <= i < rounds ==> d.hand2[i] == h[|h| - 2 - 2 * i])
  {
    if rounds > 0 {
      DealAt(h, rounds - 1);
      var d := Deal(h, rounds - 1);
      var e := Deal(h, rounds);
      var n := |d.hidden|;
      assert e.hidden == d.hidden[..n - 2] == h[..|h| - 2 * rounds];
      forall i | 0 <= i < rounds
        ensures e.hand1[i] == h[|h| - 1 - 2 * i]
      {
        if i < rounds - 1 {
          assert e.hand1[i] == d.hand1[i];
        } else {
          assert e.hand1[i] == d.hidden[n - 1];
        }
      }
      forall i | 0 <= i < rounds
        ensures e.hand2[i] == h[|h| - 2 - 2 * i]
      {
        if i < rounds - 1 {
          assert e.hand2[i] == d.hand2[i];
        } else {
          assert e.hand2[i] == d.hidden[n - 2];
        }
      }
    }
  }

  /** The state in which startGame begins. */
  function Opening(numPacks: int, stream: nat -> nat): Game
    requires 1 <= numPacks <= 10
  {
    var h := Shuffled(Packs(numPacks), stream, 0);
    var d := Deal(h, 8);
    Game(d.hidden, RankSort(d.hand1), RankSort(d.hand2), [], NoCard, ShuffleRolls(|h|), PlayerOne)
  }

  /** The opening deals two sorted hands of eight, leaves an empty played
      deck whose topCard carries the "no card" rank and puts PlayerOne to
      move; the shuffle made 52 * numPacks - 1 rand() calls. */
  lemma OpeningShape(numPacks: int, stream: nat -> nat)
    requires 1 <= numPacks <= 10
    ensures var g := Opening(numPacks, stream);
      |g.hidden| == 52 * numPacks - 16 && |g.hand1| == 8 && |g.hand2| == 8
      && SortedByRank(g.hand1) && SortedByRank(g.hand2)
      && g.played == [] && IsNoCardMarker(g.top) && g.turn == PlayerOne
      && g.calls == 52 * numPacks - 1
      && Consistent(g) && !Finished(g)
  {
    var h := Shuffled(Packs(numPacks), stream, 0);
    var d := Deal(h, 8);
    RankSortCorrect(d.hand1);
    RankSortCorrect(d.hand2);
    assert |RankSort(d.hand1)| == 8 && |RankSort(d.hand2)| == 8;
  }

  /** The opening holds numPacks copies of every card. */
  lemma OpeningCards(numPacks: int, stream: nat -> nat, c: Card)
    requires 1 <= numPacks <= 10
    ensures multiset(GameCards(Opening(numPacks, stream)))[c] == numPacks
  {
    var h := Shuffled(Packs(numPacks), stream, 0);
    var d := Deal(h, 8);
    var g := Opening(numPacks, stream);
    DealKeepsCards(h, 8);
    ShuffledKeepsCards(Packs(numPacks), stream, 0);
    RankSortCorrect(d.hand1);
    RankSortCorrect(d.hand2);
    assert GameCards(g) == d.hidden + RankSort(d.hand1) + RankSort(d.hand2) + [];
    assert multiset(GameCards(g)) == multiset(d.hidden + d.hand1 + d.hand2);
    PacksCount(numPacks, c);
  }
}
