/** The imperative engine of cardgame.c on Deck objects: initializeDeck,
    takeTurn with its match search and reshuffle, isGameFinished and
    startGame. Each method is proved to compute what the functions of
    PackOrder, Turns and GameLoop specify. */
module Engine {
  import opened Cards
  import opened Shuffling
  import opened Decks
  import opened PackOrder
  import opened Turns
  import opened GameLoop

  /** initializeDeck: numPacks packs, each suit by suit and rank by rank. */
  method InitializeDeck(numPacks: int) returns (deck: Deck)
    ensures fresh(deck) && fresh(deck.cards) && deck.Valid()
    ensures deck.Contents() == Packs(numPacks) && deck.topCard == NoCard
  {
    deck := new Deck();
    var pack := 0;
    while pack < numPacks
      invariant 0 <= pack <= if numPacks >= 0 then numPacks else 0
      invariant fresh(deck) && fresh(deck.cards) && deck.Valid() && deck.topCard == NoCard
      invariant deck.Contents() == Packs(pack)
    {
      var suit := 0;
      while suit <= 3
        invariant 0 <= suit <= 4
        invariant fresh(deck) && fresh(deck.cards) && deck.Valid() && deck.topCard == NoCard
        invariant deck.Contents() == Packs(pack) + Pack()[..13 * suit]
      {
        AddSuit(deck, suit);
        assert Pack()[..13 * suit + 13] == Pack()[..13 * suit] + Pack()[13 * suit..13 * suit + 13];
        suit := suit + 1;
      }
      assert Pack()[..52] == Pack();
      pack := pack + 1;
    }
  }

  /** The rank loop of initializeDeck for one suit: the thirteen cards of
      that suit, Two to Ace, are added in order. */
  method AddSuit(deck: Deck, suit: int)
    requires deck.Valid() && 0 <= suit <= 3
    modifies deck
    ensures deck.Valid() && fresh(deck.cards) && deck.topCard == old(deck.topCard)
    ensures deck.Contents() == old(deck.Contents()) + Pack()[13 * suit..13 * suit + 13]
  {
    ghost var before := deck.Contents();
    var rank := 0;
    while rank <= 12
      invariant 0 <= rank <= 13
      invariant deck.Valid() && deck.topCard == old(deck.topCard)
      invariant rank == 0 ==> deck.cards == old(deck.cards)
      invariant rank > 0 ==> fresh(deck.cards)
      invariant deck.Contents() == before + Pack()[13 * suit..13 * suit + rank]
    {
      PackSuitGrows(suit, rank);
      deck.AddCard(Card(SuitOf(suit), RankOf(rank)));
      rank := rank + 1;
    }
  }

  /** takeTurn's search for matchIndex: the first card of the hand that can
      be played on target, or -1. */
  method FindMatch(player: Deck, target: Card) returns (matchIndex: int)
    requires player.Valid()
    ensures matchIndex == FirstMatch(player.Contents(), target)
  {
    matchIndex := -1;
    var i := 0;
    while i < player.size
      invariant 0 <= i <= player.size
      invariant FirstMatchFrom(player.Contents(), target, i) == FirstMatch(player.Contents(), target)
    {
      if CanPlayCard(player.cards[i], target) {
        matchIndex := i;
        break;
      }
      i := i + 1;
    }
  }

  /** The end of takeTurn: when the hidden deck is empty, its buffer is
      resized to the played deck's size, the played cards are copied into it
      in order, the played deck's size and topCard rank are reset to 0, and
      the hidden deck is shuffled. */
  method ReshuffleIfEmpty(hidden: Deck, played: Deck, stream: nat -> nat, calls: nat) returns (calls': nat)
    requires hidden.Valid() && played.Valid() && Apart(hidden, played)
    modifies hidden, played
    ensures hidden.Valid() && played.Valid() && Apart(hidden, played)
    ensures fresh(hidden.cards) || hidden.cards == old(hidden.cards)
    ensures played.cards == old(played.cards) && hidden.topCard == old(hidden.topCard)
    ensures old(hidden.size) == 0 ==>
      hidden.Contents() == Shuffled(old(played.Contents()), stream, calls)
      && played.Contents() == [] && played.topCard == Card(old(played.topCard).suit, Two)
      && calls' == calls + ShuffleRolls(old(played.size))
    ensures old(hidden.size) != 0 ==>
      hidden.Contents() == old(hidden.Contents()) && played.Contents() == old(played.Contents())
      && played.topCard == old(played.topCard) && calls' == calls
  {
    calls' := calls;
    if hidden.size == 0 {
      hidden.Realloc(played.size);
      var i := 0;
      while i < played.size
        invariant 0 <= i <= played.size
        invariant hidden.cards[..i] == played.cards[..i]
        modifies hidden.cards
      {
        hidden.cards[i] := played.cards[i];
        i := i + 1;
      }
      hidden.size := played.size;
      assert hidden.Contents() == old(played.Contents());
      played.size := 0;
      played.topCard := Card(played.topCard.suit, Two);
      calls' := hidden.Shuffle(stream, calls);
    }
  }

  /** The table takeTurn works on, read off the three decks. */
  ghost function TableOfDecks(hidden: Deck, player: Deck, played: Deck, calls: nat): Table
    reads hidden, hidden.cards, player, player.cards, played, played.cards
    requires hidden.Valid() && player.Valid() && played.Valid()
  {
    Table(hidden.Contents(), player.Contents(), played.Contents(), played.topCard, calls)
  }

  /** The three decks are valid and share no record or buffer. */
  ghost predicate Separate(hidden: Deck, player: Deck, played: Deck)
    reads hidden, player, played
  {
    hidden.Valid() && player.Valid() && played.Valid()
    && Apart(hidden, player) && Apart(hidden, played) && Apart(player, played)
  }

  /** The match branch of takeTurn: the card at matchIndex becomes the
      played deck's topCard, is added to the played deck and is removed from
      the hand, whose other cards keep their order. */
  method PlayCard(player: Deck, played: Deck, matchIndex: int)
    requires player.Valid() && played.Valid() && Apart(player, played)
    requires 0 <= matchIndex < player.size
    modifies player, player.cards, played
    ensures player.Valid() && played.Valid() && Apart(player, played)
    ensures fresh(player.cards) && fresh(played.cards)
    ensures var h, m := old(player.Contents()), matchIndex;
      player.Contents() == h[..m] + h[m + 1..]
      && played.Contents() == old(played.Contents()) + [h[m]] && played.topCard == h[m]
    ensures player.topCard == old(player.topCard)
  {
    var card := player.cards[matchIndex];
    played.topCard := card;
    played.AddCard(card);
    player.RemoveAt(matchIndex);
  }

  /** The no-match branch of takeTurn: the top card of the hidden deck is
      drawn and added to the end of the hand. */
  method DrawIntoHand(hidden: Deck, player: Deck)
    requires hidden.Valid() && player.Valid() && Apart(hidden, player)
    requires hidden.size > 0
    modifies hidden, player
    ensures hidden.Valid() && player.Valid() && Apart(hidden, player)
    ensures fresh(hidden.cards) && fresh(player.cards)
    ensures var d := old(hidden.Contents());
      hidden.Contents() == d[..|d| - 1] && player.Contents() == old(player.Contents()) + [d[|d| - 1]]
    ensures hidden.topCard == old(hidden.topCard) && player.topCard == old(player.topCard)
  {
    var drawnCard := hidden.DrawCard();
    player.AddCard(drawnCard);
  }

  /** takeTurn once its target is known: the first-match play or, when no
      card of the hand matches, the draw, and then the reshuffle. */
  method PlayOrDraw(hidden: Deck, player: Deck, played: Deck, target: Card, stream: nat -> nat, calls: nat)
    returns (ok: bool, calls': nat)
    requires Separate(hidden, player, played)
    modifies hidden, player, player.cards, played
    ensures Separate(hidden, player, played)
    ensures fresh(hidden.cards) || hidden.cards == old(hidden.cards)
    ensures fresh(player.cards) || player.cards == old(player.cards)
    ensures fresh(played.cards) || played.cards == old(played.cards)
    ensures hidden.topCard == old(hidden.topCard) && player.topCard == old(player.topCard)
    ensures ok == Respond(old(TableOfDecks(hidden, player, played, calls)), target, stream).Completed?
    ensures ok ==>
      (TableOfDecks(hidden, player, played, calls') ==
       Respond(old(TableOfDecks(hidden, player, played, calls)), target, stream).after)
  {
    ok := MatchOrDraw(hidden, player, played, target, calls);
    if !ok {
      return false, calls;
    }
    ghost var u := TableOfDecks(hidden, player, played, calls);
    calls' := ReshuffleIfEmpty(hidden, played, stream, calls);
    assert TableOfDecks(hidden, player, played, calls') == Reshuffled(u, stream);
  }

  /** The middle of takeTurn: the first-match play or, when no card of the
      hand matches, the draw. ok is false when the draw would be from an
      empty hidden deck. */
  method MatchOrDraw(hidden: Deck, player: Deck, played: Deck, target: Card, ghost calls: nat)
    returns (ok: bool)
    requires Separate(hidden, player, played)
    modifies hidden, player, player.cards, played
    ensures Separate(hidden, player, played)
    ensures fresh(hidden.cards) || hidden.cards == old(hidden.cards)
    ensures fresh(player.cards) || player.cards == old(player.cards)
    ensures fresh(played.cards) || played.cards == old(played.cards)
    ensures hidden.topCard == old(hidden.topCard) && player.topCard == old(player.topCard)
    ensures var t := old(TableOfDecks(hidden, player, played, calls)); var m := FirstMatch(t.hand, target);
      (ok <==> m != -1 || t.hidden != []) && (ok ==> TableOfDecks(hidden, player, played, calls) == Move(t, m))
  {
    ghost var t := TableOfDecks(hidden, player, played, calls);
    var matchIndex := FindMatch(player, target);
    if matchIndex != -1 {
      PlayCard(player, played, matchIndex);
      WithoutIs(t.hand, matchIndex);
      assert TableOfDecks(hidden, player, played, calls) == Move(t, matchIndex);
    } else {
      if hidden.size == 0 {
        return false;
      }
      DrawIntoHand(hidden, player);
      assert TableOfDecks(hidden, player, played, calls) == Move(t, matchIndex);
    }
    ok := true;
  }

  /** takeTurn. It succeeds exactly when Turn completes, and then leaves the
      decks holding Turn's result. When Turn reaches drawCard on an empty
      deck, ok is false and the decks are left in an unspecified state. */
  method TakeTurn(hidden: Deck, player: Deck, played: Deck, stream: nat -> nat, calls: nat)
    returns (ok: bool, calls': nat)
    requires Separate(hidden, player, played)
    modifies hidden, player, player.cards, played
    ensures Separate(hidden, player, played)
    ensures fresh(hidden.cards) || hidden.cards == old(hidden.cards)
    ensures fresh(player.cards) || player.cards == old(player.cards)
    ensures fresh(played.cards) || played.cards == old(played.cards)
    ensures hidden.topCard == old(hidden.topCard) && player.topCard == old(player.topCard)
    ensures ok == Turn(old(TableOfDecks(hidden, player, played, calls)), stream).Completed?
    ensures ok ==>
      (TableOfDecks(hidden, player, played, calls') ==
       Turn(old(TableOfDecks(hidden, player, played, calls)), stream).after)
  {
    ghost var t := TableOfDecks(hidden, player, played, calls);
    var topCard := played.topCard;
    if IsNoCardMarker(topCard) {
      if hidden.size == 0 {
        return false, calls;
      }
      topCard := hidden.DrawCard();
    }
    assert TableOfDecks(hidden, player, played, calls) ==
      t.(hidden := if IsNoCardMarker(t.top) then t.hidden[..|t.hidden| - 1] else t.hidden);
    ok, calls' := PlayOrDraw(hidden, player, played, topCard, stream, calls);
  }

  /** isGameFinished: true exactly when one of the hands holds no card. */
  function IsGameFinished(player1: Deck, player2: Deck): (b: bool)
    reads player1, player1.cards, player2, player2.cards
    requires player1.Valid() && player2.Valid()
    ensures b <==> player1.Contents() == [] || player2.Contents() == []
  {
    player1.size == 0 || player2.size == 0
  }

  /** The game state read off the four decks. */
  ghost function GameOfDecks(hidden: Deck, player1: Deck, player2: Deck, played: Deck,
                             turn: PlayerTurn, calls: nat): Game
    reads hidden, hidden.cards, player1, player1.cards, player2, player2.cards, played, played.cards
    requires hidden.Valid() && player1.Valid() && player2.Valid() && played.Valid()
  {
    Game(hidden.Contents(), player1.Contents(), player2.Contents(), played.Contents(), played.topCard, calls, turn)
  }

  /** The four decks are valid and share no record or buffer. */
  ghost predicate AllSeparate(hidden: Deck, player1: Deck, player2: Deck, played: Deck)
    reads hidden, player1, player2, played
  {
    Separate(hidden, player1, played) && Separate(hidden, player2, played) && Apart(player1, player2)
  }

  /** The four decks are separate and hold the game g (its player to move
      and its rand() count are kept beside the decks). */
  ghost predicate Holds(hidden: Deck, player1: Deck, player2: Deck, played: Deck, g: Game)
    reads hidden, hidden.cards, player1, player1.cards, player2, player2.cards, played, played.cards
  {
    AllSeparate(hidden, player1, player2, played)
    && GameOfDecks(hidden, player1, player2, played, g.turn, g.calls) == g
  }

  /** One iteration of startGame's loop: the player to move (hand 1 for
      PlayerOne) takes a turn. It succeeds exactly when Step does, and then
      the decks hold Step's result. */
  method MoveOnce(hidden: Deck, player1: Deck, player2: Deck, played: Deck, ghost g: Game,
                  turn: PlayerTurn, stream: nat -> nat, calls: nat)
    returns (ok: bool, calls': nat)
    requires Holds(hidden, player1, player2, played, g) && g.turn == turn && g.calls == calls
    modifies hidden, player1, player1.cards, player2, player2.cards, played
    ensures AllSeparate(hidden, player1, player2, played)
    ensures fresh(player1.cards) || player1.cards == old(player1.cards)
    ensures fresh(player2.cards) || player2.cards == old(player2.cards)
    ensures ok == Step(g, stream).Some?
    ensures ok ==> Holds(hidden, player1, player2, played, Step(g, stream).value)
    ensures ok ==> Step(g, stream).value.calls == calls'
  {
    if turn == PlayerOne {
      assert TableOf(g) == TableOfDecks(hidden, player1, played, calls);
      ok, calls' := TakeTurn(hidden, player1, played, stream, calls);
    } else {
      assert TableOf(g) == TableOfDecks(hidden, player2, played, calls);
      ok, calls' := TakeTurn(hidden, player2, played, stream, calls);
    }
  }

  /** MoveOnce at the k-th game of the trace of startGame's loop: it
      succeeds exactly when the trace goes on, and then the decks hold the
      next game of the trace. */
  method MoveAlong(hidden: Deck, player1: Deck, player2: Deck, played: Deck, ghost g0: Game, ghost fuel: nat,
                   ghost k: nat, turn: PlayerTurn, stream: nat -> nat, calls: nat)
    returns (ok: bool, calls': nat)
    requires k < |Trace(g0, Steps(stream), fuel)| && k < fuel
    requires Holds(hidden, player1, player2, played, Trace(g0, Steps(stream), fuel)[k])
    requires Trace(g0, Steps(stream), fuel)[k].turn == turn && Trace(g0, Steps(stream), fuel)[k].calls == calls
    requires !Finished(Trace(g0, Steps(stream), fuel)[k])
    modifies hidden, player1, player1.cards, player2, player2.cards, played
    ensures AllSeparate(hidden, player1, player2, played)
    ensures fresh(player1.cards) || player1.cards == old(player1.cards)
    ensures fresh(player2.cards) || player2.cards == old(player2.cards)
    ensures ok <==> k + 1 < |Trace(g0, Steps(stream), fuel)|
    ensures ok ==> Holds(hidden, player1, player2, played, Trace(g0, Steps(stream), fuel)[k + 1])
    ensures ok ==> Trace(g0, Steps(stream), fuel)[k + 1].turn == Other(turn)
    ensures ok ==> Trace(g0, Steps(stream), fuel)[k + 1].calls == calls'
  {
    ghost var s := Trace(g0, Steps(stream), fuel);
    TraceNext(g0, stream, fuel, k);
    ok, calls' := MoveOnce(hidden, player1, player2, played, s[k], turn, stream, calls);
  }

  /** startGame for at most fuel turns: while neither hand is empty, the
      player to move takes a turn and the turn flips. status, turns and,
      unless a turn drew from an empty deck, the final decks are those of
      Run. */
  method StartGame(hidden: Deck, player1: Deck, player2: Deck, played: Deck,
                   currentPlayer: PlayerTurn, stream: nat -> nat, calls: nat, fuel: nat)
    returns (status: Status, turn: PlayerTurn, calls': nat, turns: nat)
    requires AllSeparate(hidden, player1, player2, played)
    modifies hidden, player1, player1.cards, player2, player2.cards, played
    ensures AllSeparate(hidden, player1, player2, played)
    ensures var r := Run(old(GameOfDecks(hidden, player1, player2, played, currentPlayer, calls)), Steps(stream), fuel);
      status == r.status && turns == r.turns
      && (status != DrawFromEmptyDeck ==> GameOfDecks(hidden, player1, player2, played, turn, calls') == r.final)
  {
    ghost var g0 := GameOfDecks(hidden, player1, player2, played, currentPlayer, calls);
    ghost var trace := Trace(g0, Steps(stream), fuel);
    turn, calls', turns := currentPlayer, calls, 0;
    while !IsGameFinished(player1, player2) && turns < fuel
      invariant turns <= fuel && turns < |trace| && Holds(hidden, player1, player2, played, trace[turns])
      invariant trace[turns].turn == turn && trace[turns].calls == calls'
      invariant fresh(player1.cards) || player1.cards == old(player1.cards)
      invariant fresh(player2.cards) || player2.cards == old(player2.cards)
    {
      var ok;
      ok, calls' := MoveAlong(hidden, player1, player2, played, g0, fuel, turns, turn, stream, calls');
      if !ok {
        RunAt(g0, Steps(stream), fuel, turns);
        return DrawFromEmptyDeck, turn, calls', turns;
      }
      turn := Other(turn);
      turns := turns + 1;
    }
    RunAt(g0, Steps(stream), fuel, turns);
    status := if IsGameFinished(player1, player2) then GameOver else OutOfFuel;
  }
}
