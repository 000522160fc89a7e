/** main (main.c:32-59) with the number of packs and the rand() stream as
    parameters: build and shuffle the hidden deck, deal eight rounds, sort
    both hands, and run startGame with PlayerOne to move. */
module Program {
  import opened Cards
  import opened Shuffling
  import opened RankOrder
  import opened PackOrder
  import opened Decks
  import opened GameLoop
  import opened Dealing
  import opened Engine

  /** The deal loop of main: each round draws the top hidden card into
      player 1's deck and the next one into player 2's deck. */
  method DealHands(hidden: Deck, player1: Deck, player2: Deck)
    requires hidden.Valid() && player1.Valid() && player2.Valid()
    requires Apart(hidden, player1) && Apart(hidden, player2) && Apart(player1, player2)
    requires hidden.size >= 16
    modifies hidden, player1, player2
    ensures hidden.Valid() && player1.Valid() && player2.Valid()
    ensures fresh(hidden.cards) && fresh(player1.cards) && fresh(player2.cards)
    ensures Apart(hidden, player1) && Apart(hidden, player2) && Apart(player1, player2)
    ensures var d := Deal(old(hidden.Contents()), 8);
      hidden.Contents() == d.hidden
      && player1.Contents() == old(player1.Contents()) + d.hand1
      && player2.Contents() == old(player2.Contents()) + d.hand2
    ensures hidden.topCard == old(hidden.topCard)
  {
    ghost var h, p1, p2 := hidden.Contents(), player1.Contents(), player2.Contents();
    for i := 0 to 8
      invariant hidden.Valid() && player1.Valid() && player2.Valid()
      invariant i == 0 || (fresh(hidden.cards) && fresh(player1.cards) && fresh(player2.cards))
      invariant i > 0 || (hidden.cards == old(hidden.cards) && player1.cards == old(player1.cards) && player2.cards == old(player2.cards))
      invariant Apart(hidden, player1) && Apart(hidden, player2) && Apart(player1, player2)
      invariant var d := Deal(h, i);
        hidden.Contents() == d.hidden && player1.Contents() == p1 + d.hand1 && player2.Contents() == p2 + d.hand2
      invariant hidden.topCard == old(hidden.topCard)
    {
      DealRound(hidden, player1, player2, h, p1, p2, i);
    }
  }

  /** One round of the deal loop: the top hidden card goes to hand 1, the
      next one to hand 2, which takes the decks from i rounds of Deal to
      i + 1. */
  method DealRound(hidden: Deck, player1: Deck, player2: Deck, ghost h: seq<Card>, ghost p1: seq<Card>, ghost p2: seq<Card>, ghost i: nat)
    requires hidden.Valid() && player1.Valid() && player2.Valid()
    requires Apart(hidden, player1) && Apart(hidden, player2) && Apart(player1, player2)
    requires 2 * (i + 1) <= |h|
    requires var d := Deal(h, i);
      hidden.Contents() == d.hidden && player1.Contents() == p1 + d.hand1 && player2.Contents() == p2 + d.hand2
    modifies hidden, player1, player2
    ensures hidden.Valid() && player1.Valid() && player2.Valid()
    ensures fresh(hidden.cards) && fresh(player1.cards) && fresh(player2.cards)
    ensures Apart(hidden, player1) && Apart(hidden, player2) && Apart(player1, player2)
    ensures var d := Deal(h, i + 1);
      hidden.Contents() == d.hidden && player1.Contents() == p1 + d.hand1 && player2.Contents() == p2 + d.hand2
    ensures hidden.topCard == old(hidden.topCard)
  {
    ghost var n := hidden.size;
    ghost var d := hidden.Contents();
    DealCard(hidden, player1);
    DealCard(hidden, player2);
    assert hidden.Contents() == d[..n - 2];
  }

  /** The top card of from is drawn and added to to. */
  method DealCard(from: Deck, to: Deck)
    requires from.Valid() && to.Valid() && Apart(from, to) && from.size >= 1
    modifies from, to
    ensures from.Valid() && to.Valid() && Apart(from, to)
    ensures fresh(from.cards) && fresh(to.cards)
    ensures from.size == old(from.size) - 1
    ensures from.Contents() == old(from.Contents())[..old(from.size) - 1]
    ensures to.Contents() == old(to.Contents()) + [old(from.Contents())[old(from.size) - 1]]
    ensures from.topCard == old(from.topCard)
  {
    var card := from.DrawCard();
    to.AddCard(card);
  }

  /** The hidden deck of main: numPacks packs, then shuffled, with the
      number of rand() calls the shuffle made. */
  method BuildHidden(numPacks: int, stream: nat -> nat) returns (hidden: Deck, calls: nat)
    requires 1 <= numPacks <= 10
    ensures fresh(hidden) && fresh(hidden.cards) && hidden.Valid() && hidden.topCard == NoCard
    ensures hidden.Contents() == Shuffled(Packs(numPacks), stream, 0)
    ensures calls == ShuffleRolls(|hidden.Contents()|) && |hidden.Contents()| == 52 * numPacks
  {
    hidden := InitializeDeck(numPacks);
    calls := hidden.Shuffle(stream, 0);
  }

  /** The deal loop of main followed by the sort of both hands. */
  method DealAndSort(hidden: Deck, player1: Deck, player2: Deck)
    requires hidden.Valid() && player1.Valid() && player2.Valid()
    requires Apart(hidden, player1) && Apart(hidden, player2) && Apart(player1, player2)
    requires hidden.size >= 16
    modifies hidden, player1, player2
    ensures hidden.Valid() && player1.Valid() && player2.Valid()
    ensures fresh(hidden.cards) && fresh(player1.cards) && fresh(player2.cards)
    ensures Apart(hidden, player1) && Apart(hidden, player2) && Apart(player1, player2)
    ensures var d := Deal(old(hidden.Contents()), 8);
      hidden.Contents() == d.hidden
      && player1.Contents() == RankSort(old(player1.Contents()) + d.hand1)
      && player2.Contents() == RankSort(old(player2.Contents()) + d.hand2)
    ensures hidden.topCard == old(hidden.topCard)
  {
    DealHands(hidden, player1, player2);
    player1.CustomSort();
    player2.CustomSort();
  }

  /** The hidden deck and the two hands of the opening: main's hidden deck
      built and shuffled, then dealt into two new decks that are sorted. */
  method OpeningDecks(numPacks: int, stream: nat -> nat) returns (hidden: Deck, player1: Deck, player2: Deck, calls: nat)
    requires 1 <= numPacks <= 10
    ensures fresh(hidden) && fresh(player1) && fresh(player2)
    ensures fresh(hidden.cards) && fresh(player1.cards) && fresh(player2.cards)
    ensures hidden.Valid() && player1.Valid() && player2.Valid() && hidden.topCard == NoCard
    ensures Apart(hidden, player1) && Apart(hidden, player2) && Apart(player1, player2)
    ensures var g := Opening(numPacks, stream);
      hidden.Contents() == g.hidden && player1.Contents() == g.hand1 && player2.Contents() == g.hand2 && calls == g.calls
  {
    hidden, calls := BuildHidden(numPacks, stream);
    ghost var h := hidden.Contents();
    player1 := new Deck();
    player2 := new Deck();
    DealAndSort(hidden, player1, player2);
    ghost var d := Deal(h, 8);
    assert [] + d.hand1 == d.hand1 && [] + d.hand2 == d.hand2;
  }

  /** Everything main does before startGame. The decks it builds hold the
      opening game and are four separate decks. */
  method NewGame(numPacks: int, stream: nat -> nat)
    returns (hidden: Deck, player1: Deck, player2: Deck, played: Deck, currentPlayer: PlayerTurn, calls: nat)
    requires 1 <= numPacks <= 10
    ensures fresh(hidden) && fresh(player1) && fresh(player2) && fresh(played)
    ensures fresh(player1.cards) && fresh(player2.cards)
    ensures AllSeparate(hidden, player1, player2, played)
    ensures GameOfDecks(hidden, player1, player2, played, currentPlayer, calls) == Opening(numPacks, stream)
  {
    hidden, player1, player2, calls := OpeningDecks(numPacks, stream);
    played := new Deck();
    currentPlayer := PlayerOne;
  }

  /** main for at most fuel turns: how the game stops and after how many
      turns are those of Run from the opening. */
  method Play(numPacks: int, stream: nat -> nat, fuel: nat) returns (status: Status, turns: nat)
    requires 1 <= numPacks <= 10
    ensures var r := Run(Opening(numPacks, stream), Steps(stream), fuel);
      status == r.status && turns == r.turns
  {
    var hidden, player1, player2, played, currentPlayer, calls := NewGame(numPacks, stream);
    var calls';
    status, currentPlayer, calls', turns := StartGame(hidden, player1, player2, played, currentPlayer, stream, calls, fuel);
  }
}
