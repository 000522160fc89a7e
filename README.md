# Card game engine in Dafny

A model of a two-player card matching game written in C (`cardgame.c`,
`cardgame.h`, and the set-up part of `main.c`), with proofs about it.

## The game

The game uses four decks of type `DeckOfCards`: the hidden deck, hand 1,
hand 2 and the played deck. Each is a card buffer with a `size` and a
`topCard`.

`main` builds the hidden deck and shuffles it:

- `initializeDeck` adds `numPacks` packs;
- `shuffleDeck` is a Fisher–Yates shuffle driven by `rand()`.

`main` then deals eight rounds, hand 1 first, and sorts both hands by rank
with `customSort`, a bubble sort. `startGame` then lets the players move in
turn until a hand is empty.

A turn (`takeTurn`) has four steps:

1. **Reveal.** If the played deck's `topCard` has rank value 0, a card is
   drawn from the hidden deck and used as the target.
2. **Play.** Otherwise the target is the `topCard`. The first card of the
   hand that matches the target on rank or suit is played: it leaves the
   hand and becomes the played deck's top.
3. **Draw.** If nothing matches, the hand draws the top hidden card.
4. **Reshuffle.** If the hidden deck is now empty, it takes the played
   deck's cards and is shuffled. The played deck is emptied and its
   `topCard` rank is reset to 0.

## How the model works

The model follows the code. Three of its behaviours may surprise a reader:

- **Rank value 0 is the rank Two.** A played Two triggers a fresh reveal,
  just as "no card played yet" does (`Turns.RevealCondition`).
- **The revealed card is lost.** The card drawn in a reveal is kept in a
  local variable only. It is never added to the played deck or stored as
  its `topCard`, so every reveal turn removes one card from the game
  (`Turns.RevealLosesCard`, `GameLoop.StepCards`).
- **Drawing from an empty deck is undefined behaviour in C.** The model
  treats it as a failure: `Turns.Turn` yields `DrawFromEmpty`, and
  `Engine.TakeTurn` returns `ok == false`. Such a turn happens only in the
  way `Turns.TurnFails` describes for a Settled table. It can happen in a game that satisfies
  every invariant the model proves about a run
  (`GameLoop.DrawFromEmptyDeckPossible`); the model does not show a run from
  an opening that reaches it.

### Structure

The imperative code stays imperative:

- `Decks.Deck` is a class with the fields `cards` (an `array`), `size` and
  `topCard`.
- addCardToDeck, drawCard, shuffleDeck, customSort, initializeDeck,
  takeTurn, startGame and the deal are methods with loops.
- `realloc` becomes a fresh array of the new length.

Each method is proved against a functional specification:

- `Shuffling.Shuffled` for the shuffle;
- `RankOrder.RankSort`, a stable insertion sort, for the bubble sort;
- `PackOrder.Packs` for the deck construction;
- `Turns.Turn` for a turn;
- `GameLoop.Run` for the game loop;
- `Dealing.Deal` and `Dealing.Opening` for the opening.

The lemmas are proved about these specifications.

### Randomness and termination

`rand()` is a parameter. The k-th call to `rand()` since the program started
returns `stream(k)`, and every state also carries the number of calls made so
far.

`startGame` need not terminate, so it runs for at most `fuel` turns.
`GameLoop.Run` describes such a run by its trace (`GameLoop.Trace`), which
lists the games the loop passes through. `Run` and `Trace` take the step
function as a parameter; the game uses `GameLoop.Steps(stream)`, one
`takeTurn` followed by the flip of `currentPlayer`.

## Model

| member | source | states |
|---|---|---|
| Cards.Suit.Ord | cardgame.h:20-25 | the enumerator value of a suit is below 4 |
| Cards.Rank.Ord | cardgame.h:31-33 | the enumerator value of a rank is below 13 |
| Cards.SuitOf | cardgame.c:45 | the suit made from loop counter n has enumerator value n |
| Cards.RankOf | cardgame.c:46 | the rank made from loop counter n has enumerator value n |
| Cards.EnumeratorsRoundTrip | cardgame.h:20-33 | there are exactly four suits and thirteen ranks, each named by its enumerator value |
| Cards.NoCard | cardgame.c:43 | the zero-initialised topCard `{0}`: suit Club and rank Two, both of value 0 |
| Cards.IsNoCardMarker | cardgame.c:182 | the "no card played" test succeeds exactly on the rank Two |
| Cards.MatchingRule | cardgame.c:164-166 | a card can be played exactly when rank or suit is equal; the rule is symmetric |
| Cards.CanPlayCard | cardgame.c:164-166 | a card can be played on the target when rank or suit is equal (MatchingRule states it) |
| Cards.Swap | cardgame.c:62-64 | the temp-variable exchange puts each of the two cards in the other's place |
| Cards.SwapKeeps | cardgame.c:62-64 | an exchange leaves other positions alone and keeps the cards |
| Shuffling.Roll | cardgame.c:61 | the swap partner `rand() % (i + 1)` lies in 0..i |
| Shuffling.ShuffleFrom | cardgame.c:60-65 | the passes of the shuffle loop from index i down to 1, each swapping with the rolled partner; the length is kept (ShuffleStep, ShuffleFromKeepsCards, ShuffleFromKeepsAbove) |
| Shuffling.ShuffleFromKeepsCards | cardgame.c:60-65 | every sequence of passes of the shuffle loop is a permutation |
| Shuffling.ShuffleStep | cardgame.c:60-65 | one pass swaps i with the rolled index, and the rest of the loop continues from i - 1 with the next rand() call |
| Shuffling.Shuffled | cardgame.c:59-66 | the shuffle keeps the size and leaves decks of at most one card unchanged |
| Shuffling.ShuffledKeepsCards | cardgame.c:59-66 | the shuffled deck is a permutation of the deck |
| Shuffling.ShuffleFromKeepsAbove | cardgame.c:60-65 | positions above the loop index are never touched again |
| Shuffling.ShuffledTop | cardgame.c:60-64 | the card on top after the shuffle is the one the first rand() call chose |
| RankOrder.SwapUnequalRanks | cardgame.c:122-126 | exchanging neighbours of different rank keeps every rank's cards in order |
| RankOrder.RankSortCorrect | cardgame.c:119-129 | the reference order is sorted by rank, a permutation, and stable |
| RankOrder.StableSortUnique | cardgame.c:119-129 | two rank-sorted sequences with the same cards of each rank in the same order are equal |
| RankOrder.InsertSorted | cardgame.c:119-129 | inserting by rank into a sorted sequence keeps it sorted |
| RankOrder.InsertOfRank | cardgame.c:119-129 | inserting by rank adds the card after the cards of its rank |
| RankOrder.OfRankConcat | cardgame.c:119-129 | the cards of a rank in a concatenation are those of each part, in order |
| PackOrder.Packs | cardgame.c:42-52 | numPacks packs hold 52 * numPacks cards (none for a count below one) |
| PackOrder.Pack | cardgame.c:45-49 | one pass of the suit and rank loops: 52 cards, the card at 13s + r having suit value s and rank value r (PackOnce, PackSuitGrows) |
| PackOrder.PacksAt | cardgame.c:44-48 | the card at index 52p + 13s + r has suit value s and rank value r |
| PackOrder.PackOnce | cardgame.c:45-49 | one pack holds every card exactly once |
| PackOrder.PacksCount | cardgame.c:42-52 | numPacks packs hold every card exactly numPacks times |
| Decks.Deck.constructor | main.c:36-38 | a new deck is empty, with the zero card as topCard |
| Decks.Deck.Realloc | cardgame.c:138 | the buffer is replaced by a fresh one of the new length and the cards in use are kept |
| Decks.Deck.AddCard | cardgame.c:137-140 | the card goes to index size, size grows by one, and earlier cards and topCard are unchanged |
| Decks.Deck.DrawCard | cardgame.c:148-153 | on a non-empty deck, returns the last card and leaves the prefix; size shrinks by one |
| Decks.Deck.RemoveAt | cardgame.c:202-206 | the card at k leaves the hand and the other cards keep their order |
| Decks.Deck.Exchange | cardgame.c:62-64 | the cards at i and j change places |
| Decks.Deck.Shuffle | cardgame.c:59-66 | the deck becomes Shuffled of its cards, after size - 1 rand() calls (none when size <= 1) |
| Decks.Deck.ShufflePass | cardgame.c:61-64 | one pass exchanges the card at i with the one at j = rand() % (i + 1), which lies in 0..i, and leaves the passes from i - 1 on to do |
| Decks.Deck.CompareExchangeAt | cardgame.c:122-126 | the cards at j and j + 1 are exchanged exactly when the left one has the greater rank |
| Decks.Deck.BubblePass | cardgame.c:121-127 | one inner pass carries a card of maximal rank to position m, keeping each rank's order |
| Decks.Deck.CustomSort | cardgame.c:119-129 | the deck becomes RankSort of its cards: sorted, a permutation, stable |
| Decks.CompareExchange | cardgame.c:122-126 | the inner loop's step keeps the length |
| Decks.BubbleStep | cardgame.c:121-126 | a compare-exchange keeps the pass invariant and each rank's order |
| Decks.BubbleDone | cardgame.c:120-121 | after a pass, the card at m joins the sorted top part |
| Turns.FirstMatchFrom | cardgame.c:190-195 | the search from i either fails or finds a playable card at or after i |
| Turns.FirstMatchFromFirst | cardgame.c:190-195 | no card between i and the found one is playable |
| Turns.FirstMatch | cardgame.c:189-195 | matchIndex is -1 or the index of a playable card |
| Turns.FirstMatchFirst | cardgame.c:189-195 | matchIndex is the lowest playable index; none is playable when it is -1 |
| Turns.Reshuffled | cardgame.c:219-231 | on an empty hidden deck: it becomes the shuffled played pile, the pile empties and the topCard gets rank Two with its suit kept; otherwise the table is unchanged (ReshuffledKeepsCards and ReshuffledSettles state its properties) |
| Turns.ReshuffledKeepsCards | cardgame.c:219-231 | the reshuffle keeps the cards and the hand; the hidden deck stays empty only if the played deck was empty |
| Turns.PlayAt | cardgame.c:197-206 | the match branch: the card at m becomes the topCard, joins the pile and leaves the hand (PlayAtKeepsCards) |
| Turns.Without | cardgame.c:202-205 | removing one card shortens the hand by one |
| Turns.WithoutIs | cardgame.c:202-205 | removing index m keeps the cards before and after m in order |
| Turns.PlayAtKeepsCards | cardgame.c:197-206 | the play branch keeps every card of the table |
| Turns.DrawToHand | cardgame.c:210-212 | the no-match branch: the last hidden card moves to the end of the hand (DrawToHandKeepsCards) |
| Turns.DrawToHandKeepsCards | cardgame.c:210-212 | the draw branch keeps every card of the table |
| Turns.Move | cardgame.c:189-217 | the branch chosen by matchIndex: the play when it is not -1, the draw otherwise (MoveKeepsCards) |
| Turns.MoveKeepsCards | cardgame.c:197-217 | either branch of takeTurn keeps every card |
| Turns.RevealCondition | cardgame.c:182 | while the played deck agrees with its topCard, a reveal happens exactly when the deck is empty or a Two lies on top |
| Turns.ReshuffledSettles | cardgame.c:219-228 | after the reshuffle, the hidden deck is empty only under the "no card" rank |
| Turns.TurnKeepsInvariants | cardgame.c:179-232 | a completed turn keeps the played deck in agreement with its topCard |
| Turns.Respond | cardgame.c:189-231 | the rest of a turn once the target is known: DrawFromEmpty when nothing matches and the hidden deck is empty, otherwise Move then Reshuffled (RespondKeepsCards, RespondHand) |
| Turns.Turn | cardgame.c:179-232 | takeTurn: the reveal on the "no card" rank (failing on an empty hidden deck), then Respond with the revealed card or the topCard as target (TurnKeepsCards, RevealLosesCard, TurnHand, TurnFails) |
| Turns.RespondKeepsCards | cardgame.c:189-231 | play or draw followed by the reshuffle keeps every card |
| Turns.TurnKeepsCards | cardgame.c:179-232 | a turn without reveal keeps every card |
| Turns.RevealLosesCard | cardgame.c:180-187 | a reveal turn loses exactly the revealed card |
| Turns.TurnNeverAddsCards | cardgame.c:179-232 | no turn adds a card |
| Turns.RespondHand | cardgame.c:189-217 | the first playable card leaves the hand with the others' order kept; otherwise the top hidden card is appended |
| Turns.TurnHand | cardgame.c:179-217 | the same for a whole turn, with the target being the revealed card or the topCard; a drawn card is the top of the hidden deck left after the reveal |
| Turns.TurnCompletes | cardgame.c:180-212 | with two or more hidden cards no turn draws from an empty deck |
| Turns.TurnFails | cardgame.c:180-212 | on a Settled table (which the opening and every completed turn give), a turn draws from an empty deck exactly on a reveal from an empty hidden deck, or from a one-card hidden deck when no card of the hand matches |
| GameLoop.Other | cardgame.c:261 | the player flip yields the other player |
| GameLoop.Finished | cardgame.c:241-243 | isGameFinished: one of the hands is empty (Engine.IsGameFinished states the same of the two hand decks) |
| GameLoop.TableOf | cardgame.c:260 | the table takeTurn is given: hand 1 when PlayerOne is to move, hand 2 otherwise (StepShape) |
| GameLoop.Step | cardgame.c:259-262 | a completed iteration passes the turn to the other player |
| GameLoop.StepShape | cardgame.c:260-261 | a step runs takeTurn on the mover's hand only |
| GameLoop.StepKeepsConsistent | cardgame.c:259-262 | an iteration keeps the played deck in agreement with its topCard |
| GameLoop.GameCardsOfTable | cardgame.c:260 | the game's cards are the turn's table plus the waiting hand |
| GameLoop.StepCardsSplit | cardgame.c:260-261 | after a step, the game's cards are the turn's result plus the waiting hand |
| GameLoop.StepCards | cardgame.c:259-262 | an iteration keeps every card, or loses exactly the revealed one |
| GameLoop.Trace | cardgame.c:259-262 | the trace starts at the initial game and has at most fuel + 1 games |
| GameLoop.TraceStep | cardgame.c:259-262 | every game but the last is unfinished and steps to the next |
| GameLoop.TraceStops | cardgame.c:259 | the last game is finished, out of fuel, or its step fails |
| GameLoop.TraceUnique | cardgame.c:259-262 | TraceStep and TraceStops determine the trace |
| GameLoop.TraceKeeps | cardgame.c:259-262 | a property kept by every step holds along the trace |
| GameLoop.TraceAlternates | cardgame.c:261 | the k-th game of the trace has the starting player to move exactly when k is even |
| GameLoop.Run | cardgame.c:256-265 | a run takes at most fuel turns |
| GameLoop.RunStops | cardgame.c:259 | GameOver exactly on an empty hand; OutOfFuel after fuel turns; DrawFromEmptyDeck only before a failing step |
| GameLoop.Steps | cardgame.c:259-262 | the loop body with the rand() stream fixed, as the step function of a run (StepsAlternate) |
| GameLoop.StepsAlternate | cardgame.c:261 | every step flips the player to move |
| GameLoop.RunAlternatesFor | cardgame.c:261 | with such steps, the parity of the turn count gives the player to move |
| GameLoop.RunKeeps | cardgame.c:259-262 | a run's final game keeps what every step keeps |
| GameLoop.RunAlternates | cardgame.c:259-262 | the players alternate: after an even number of turns the first player moves again |
| GameLoop.RunKeepsConsistent | cardgame.c:259-262 | a run keeps the played deck in agreement with its topCard |
| GameLoop.RunNeverAddsCards | cardgame.c:259-262 | the final cards of a run are among the starting ones |
| GameLoop.StepFails | cardgame.c:180-212 | a step fails only on a reveal with at most one hidden card |
| GameLoop.RunFailure | cardgame.c:259-262 | a run stops on the undefined draw only on a reveal with at most one hidden card |
| GameLoop.DrawFromEmptyDeckPossible | cardgame.c:180-212 | a concrete game satisfying Consistent stops on the undefined draw in its first turn |
| GameLoop.TraceNext | cardgame.c:259-262 | the game after the k-th one of the trace exists exactly when its Step succeeds, and is that Step |
| GameLoop.RunAt | cardgame.c:259-262 | where the loop stops on the trace, Run has that status, game and turn count |
| Dealing.Deal | main.c:41-44 | the deal takes two cards per round off the hidden deck and gives one to each hand |
| Dealing.DealKeepsCards | main.c:41-44 | the hidden deck and both hands together hold the cards of the pre-deal hidden deck |
| Dealing.DealAt | main.c:41-44 | hand 1 gets hidden indices size-1, size-3, ...; hand 2 gets size-2, size-4, ...; the hidden deck keeps its bottom cards |
| Dealing.Opening | main.c:32-58 | the game startGame begins with: shuffled packs, eight dealt rounds, both hands sorted, the empty pile, PlayerOne (OpeningShape, OpeningCards) |
| Dealing.OpeningShape | main.c:32-58 | the opening has 52n - 16 hidden cards, two sorted hands of 8, an empty played deck with the "no card" mark, PlayerOne to move and 52n - 1 rand() calls |
| Dealing.OpeningCards | main.c:32-44 | the opening holds every card exactly numPacks times |
| Engine.InitializeDeck | cardgame.c:42-52 | the deck built is Packs(numPacks) with the zero topCard |
| Engine.AddSuit | cardgame.c:46-48 | the rank loop adds the thirteen cards of one suit in order |
| Engine.FindMatch | cardgame.c:189-195 | the search returns FirstMatch of the hand |
| Engine.ReshuffleIfEmpty | cardgame.c:219-231 | on an empty hidden deck: it becomes the shuffled played cards, the played deck empties and its topCard gets rank Two; otherwise nothing changes |
| Engine.PlayCard | cardgame.c:197-206 | the matched card becomes topCard, is appended to the played deck and leaves the hand, whose other cards keep their order |
| Engine.DrawIntoHand | cardgame.c:210-212 | the top hidden card moves to the end of the hand |
| Engine.MatchOrDraw | cardgame.c:189-217 | the decks become Move of the table, unless the draw would be from an empty deck |
| Engine.PlayOrDraw | cardgame.c:189-231 | the decks become the turn's result from the known target, with ok telling whether it completed |
| Engine.TakeTurn | cardgame.c:179-232 | ok exactly when Turn completes, and then the decks hold Turn's result |
| Engine.IsGameFinished | cardgame.c:241-243 | true exactly when one hand is empty |
| Engine.MoveOnce | cardgame.c:260 | the mover's hand takes a turn; it succeeds exactly when Step does, and the decks then hold Step's result |
| Engine.MoveAlong | cardgame.c:259-262 | at the k-th game of the trace, a turn succeeds exactly when the trace goes on, and the decks then hold the next game |
| Engine.StartGame | cardgame.c:256-265 | status and turn count are those of Run; unless the run drew from an empty deck, the decks hold Run's final game |
| Program.DealHands | main.c:41-44 | after the deal loop the decks hold Deal of the hidden deck for 8 rounds |
| Program.DealRound | main.c:42-43 | one round takes the decks from Deal(h, i) to Deal(h, i + 1) |
| Program.DealCard | main.c:42 | the top card of one deck is drawn and appended to another |
| Program.BuildHidden | main.c:32-33 | the hidden deck is the shuffled numPacks packs, after 52n - 1 rand() calls |
| Program.DealAndSort | main.c:41-48 | after the deal both hands are RankSort of what they were dealt |
| Program.OpeningDecks | main.c:32-48 | hidden deck, hands and rand() count are those of Opening |
| Program.NewGame | main.c:32-58 | the four new, separate decks and PlayerOne hold the Opening game |
| Program.Play | main.c:32-59 | main's game for at most fuel turns stops as Run from the opening does |

## Left out

- getNumPacksFromUser (cardgame.c:24-32) reads the console. `numPacks` is a parameter with the precondition 1 <= numPacks <= 10.
- displayDeck, suitToString, rankToString and every `printf` in takeTurn, startGame and main only format output. takeTurn's `currentPlayer` argument only feeds those `printf` calls, so it is dropped.
- srand(time(NULL)) and rand() are replaced by the stream of values that rand() returns. Uniformity and modulo bias are not modelled.
- free (main.c:62-65) is not modelled. A failed realloc (NULL) is not modelled; realloc always yields a fresh array of the requested length.
- Decks.Deck.Valid: requires size <= cards.Length instead of size == cards.Length. The reshuffle sets the played deck's size to 0 without reallocating its buffer (cardgame.c:227), so the buffer keeps its old length; the cards in use are always cards[..size].
- Engine.TakeTurn: does not state the decks after a turn that draws from an empty deck, because that is undefined behaviour in C; the method returns ok == false before the draw.
- Engine.StartGame: does not state the final decks after DrawFromEmptyDeck, for the same reason.
- Engine.StartGame: runs for at most fuel turns and reports OutOfFuel when they are used up, because the C loop need not terminate.
- GameLoop.Run: takes the step function as a parameter; the game's own step is GameLoop.Steps(stream).
- Integer widths: the decks hold at most 520 cards and the C ints never overflow, so they are modelled as unbounded integers.
