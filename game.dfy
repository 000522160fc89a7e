/** The game loop of startGame (cardgame.c:256-265) and its end test
    isGameFinished (cardgame.c:241-243) on the contents of the four decks.
    The C loop need not terminate, so a run is bounded by a number of turns
    (fuel). */
module GameLoop {
  import opened Cards
  import opened Turns

  /** The whole game state: the four decks, the played deck's topCard, the
      number of rand() calls made so far and the player to move. */
  datatype Game = Game(hidden: seq<Card>, hand1: seq<Card>, hand2: seq<Card>, played: seq<Card>,
                       top: Card, calls: nat, turn: PlayerTurn)

  datatype Status = GameOver | DrawFromEmptyDeck | OutOfFuel

  /** How a run stopped, the game state it stopped in, and the number of
      completed turns. After DrawFromEmptyDeck the state is the one before the
      turn that drew from an empty deck. */
  datatype RunResult = RunResult(status: Status, final: Game, turns: nat)

  datatype Option<T> = None | Some(value: T)

  /** The flip of currentPlayer after a turn. */
  function Other(p: PlayerTurn): (q: PlayerTurn)
    ensures q != p
  {
    if p == PlayerOne then PlayerTwo else PlayerOne
  }

  /** isGameFinished: one of the hands is empty. */
  predicate Finished(g: Game)
  {
    g.hand1 == [] || g.hand2 == []
  }

  /** All the cards in the game. */
  function GameCards(g: Game): seq<Card>
  {
    g.hidden + g.hand1 + g.hand2 + g.played
  }

  /** The table takeTurn works on: hand 1 for PlayerOne, hand 2 for PlayerTwo. */
  function TableOf(g: Game): Table
  {
    Table(g.hidden, if g.turn == PlayerOne then g.hand1 else g.hand2, g.played, g.top, g.calls)
  }

  /** One iteration of startGame's loop: the player to move takes a turn and
      the turn passes to the other player. None when the turn draws from an
      empty deck. */
  function Step(g: Game, stream: nat -> nat): (r: Option<Game>)
    ensures r.Some? ==> r.value.turn == Other(g.turn)
  {
    match Turn(TableOf(g), stream)
    case DrawFromEmpty => None
    case Completed(t) =>
      Some(Game(t.hidden,
                if g.turn == PlayerOne then t.hand else g.hand1,
                if g.turn == PlayerTwo then t.hand else g.hand2,
                t.played, t.top, t.calls, Other(g.turn)))
  }

  /** Step with the rand() stream fixed, as the step function of a run. */
  function Steps(stream: nat -> nat): Game -> Option<Game>
  {
    g => Step(g, stream)
  }

  /** The games startGame's loop passes through in at most fuel turns, each
      turn made by step: the trace starts at g and goes on to the next game
      while neither hand is empty, the fuel lasts and the step succeeds. */
  function Trace(g: Game, step: Game -> Option<Game>, fuel: nat): (s: seq<Game>)
    ensures 1 <= |s| <= fuel + 1 && s[0] == g
    decreases fuel
  {
    if Finished(g) || fuel == 0 then [g]
    else match step(g)
      case None => [g]
      case Some(next) => [g] + Trace(next, step, fuel - 1)
  }

  /** Each game of a trace but the last is not finished, comes before the
      fuel is spent, and steps to the next game of the trace. */
  lemma {:induction false} TraceStep(g: Game, step: Game -> Option<Game>, fuel: nat, k: nat)
    requires k + 1 < |Trace(g, step, fuel)|
    ensures var s := Trace(g, step, fuel);
      !Finished(s[k]) && k < fuel && step(s[k]) == Some(s[k + 1])
    decreases fuel
  {
    if k > 0 {
      TraceStep(step(g).value, step, fuel - 1, k - 1);
    }
  }

  /** The last game of a trace is finished, or the fuel is spent there, or
      its step fails; a trace from a finished game or with no fuel has only
      its first game. */
  lemma {:induction false} TraceStops(g: Game, step: Game -> Option<Game>, fuel: nat)
    ensures var s := Trace(g, step, fuel); var k := |s| - 1;
      (Finished(s[k]) || k == fuel || step(s[k]) == None)
      && (Finished(g) || fuel == 0 ==> |s| == 1)
    decreases fuel
  {
    if !Finished(g) && fuel > 0 && step(g).Some? {
      TraceStops(step(g).value, step, fuel - 1);
    }
  }

  /** TraceStep and TraceStops determine the trace: a sequence that starts at
      g, steps while no hand is empty and the fuel lasts, and stops where the
      loop stops, is the trace. */
  lemma {:induction false} TraceUnique(g: Game, step: Game -> Option<Game>, fuel: nat, s: seq<Game>)
    requires |s| >= 1 && s[0] == g
    requires forall k {:trigger s[k]} :: 0 <= k < |s| - 1 ==> !Finished(s[k]) && k < fuel && step(s[k]) == Some(s[k + 1])
    requires Finished(s[|s| - 1]) || |s| - 1 == fuel || step(s[|s| - 1]) == None
    ensures s == Trace(g, step, fuel)
    decreases fuel
  {
    if |s| > 1 {
      assert step(s[0]) == Some(s[1]);
      var t := s[1..];
      forall k {:trigger t[k]} | 0 <= k < |t| - 1
        ensures !Finished(t[k]) && k < fuel - 1 && step(t[k]) == Some(t[k + 1])
      {
        assert t[k] == s[k + 1] && t[k + 1] == s[k + 2];
      }
      TraceUnique(s[1], step, fuel - 1, t);
      assert s == [g] + t;
    }
  }

  /** startGame's loop for at most fuel turns from g, each turn made by step
      (Steps(stream) in the game itself): how it stops, the game it stops in
      and the number of turns it completed. After DrawFromEmptyDeck the game
      is the one before the turn that drew from an empty deck. */
  function Run(g: Game, step: Game -> Option<Game>, fuel: nat): (r: RunResult)
    ensures r.turns <= fuel
  {
    var s := Trace(g, step, fuel);
    var k := |s| - 1;
    RunResult(if Finished(s[k]) then GameOver else if k == fuel then OutOfFuel else DrawFromEmptyDeck, s[k], k)
  }

  /** The three ways a run stops: GameOver exactly when a hand is empty,
      OutOfFuel when all fuel turns were taken, and DrawFromEmptyDeck only
      where the next turn would draw from an empty deck. A run that takes no
      turn stops where it started. */
  lemma RunStops(g: Game, step: Game -> Option<Game>, fuel: nat)
    ensures var r := Run(g, step, fuel);
      (r.status == GameOver <==> Finished(r.final))
      && (r.status == OutOfFuel ==> r.turns == fuel)
      && (r.status == DrawFromEmptyDeck ==> r.turns < fuel && step(r.final) == None)
      && (Finished(g) || fuel == 0 ==> r.turns == 0 && r.final == g)
  {
    TraceStops(g, step, fuel);
  }

  /** A step hands the turn to the other player, changes only the hand of
      the player who moved, and is takeTurn on that player's hand. */
  lemma StepShape(g: Game, stream: nat -> nat)
    requires Step(g, stream).Some?
    ensures var n := Step(g, stream).value;
      n.turn == Other(g.turn)
      && (g.turn == PlayerOne ==> n.hand2 == g.hand2)
      && (g.turn == PlayerTwo ==> n.hand1 == g.hand1)
      && Turn(TableOf(g), stream) == Completed(TableOf(n.(turn := g.turn)))
  {
  }

  /** The played pile agrees with its topCard and the hidden deck is empty
      only under the "no card" rank; both hold at the start of a game. */
  predicate Consistent(g: Game)
  {
    PileAgrees(TableOf(g)) && Settled(TableOf(g))
  }

  lemma StepKeepsConsistent(g: Game, stream: nat -> nat)
    requires Consistent(g) && Step(g, stream).Some?
    ensures Consistent(Step(g, stream).value)
  {
    TurnKeepsInvariants(TableOf(g), stream);
  }

  /** The hand of the player who is not to move. */
  function Waiting(g: Game): seq<Card>
  {
    if g.turn == PlayerOne then g.hand2 else g.hand1
  }

  /** The cards of the game are those of the table takeTurn works on and the
      waiting hand. */
  lemma GameCardsOfTable(g: Game)
    ensures multiset(GameCards(g)) == multiset(AllCards(TableOf(g))) + multiset(Waiting(g))
  {
  }

  /** After a step, the cards of the game are those of the table after the
      turn and the hand that did not move. */
  lemma StepCardsSplit(g: Game, stream: nat -> nat)
    requires Step(g, stream).Some?
    ensures multiset(GameCards(Step(g, stream).value)) ==
      multiset(AllCards(Turn(TableOf(g), stream).after)) + multiset(Waiting(g))
  {
    var n := Step(g, stream).value;
    var t := Turn(TableOf(g), stream).after;
    GameCardsOfTable(n);
    assert TableOf(n) == t.(hand := Waiting(g)) && Waiting(n) == t.hand;
  }

  /** A step keeps every card unless it reveals, and then loses exactly the
      revealed card. */
  lemma StepCards(g: Game, stream: nat -> nat)
    requires Step(g, stream).Some?
    ensures !IsNoCardMarker(g.top) ==> multiset(GameCards(Step(g, stream).value)) == multiset(GameCards(g))
    ensures IsNoCardMarker(g.top) ==>
      (g.hidden != [] &&
       multiset(GameCards(Step(g, stream).value)) + multiset{g.hidden[|g.hidden| - 1]} == multiset(GameCards(g)))
  {
    StepCardsSplit(g, stream);
    GameCardsOfTable(g);
    var after := multiset(GameCards(Step(g, stream).value));
    var t := multiset(AllCards(Turn(TableOf(g), stream).after));
    if IsNoCardMarker(g.top) {
      RevealLosesCard(TableOf(g), stream);
      SameWaiting(after, t, multiset(Waiting(g)), multiset(GameCards(g)), multiset(AllCards(TableOf(g))),
                  multiset{g.hidden[|g.hidden| - 1]});
    } else {
      TurnKeepsCards(TableOf(g), stream);
      SameWaiting(after, t, multiset(Waiting(g)), multiset(GameCards(g)), multiset(AllCards(TableOf(g))),
                  multiset{});
    }
  }

  lemma SameWaiting(a: multiset<Card>, t: multiset<Card>, w: multiset<Card>, g: multiset<Card>,
                    y: multiset<Card>, lost: multiset<Card>)
    requires a == t + w && g == y + w && t + lost == y
    ensures a + lost == g
  {
  }

  /** A property that every step keeps holds of every game of a trace. */
  lemma {:induction false} TraceKeeps(g: Game, step: Game -> Option<Game>, fuel: nat, k: nat, inv: Game -> bool)
    requires inv(g)
    requires forall x :: inv(x) && step(x).Some? ==> inv(step(x).value)
    requires k < |Trace(g, step, fuel)|
    ensures inv(Trace(g, step, fuel)[k])
    decreases fuel
  {
    if k > 0 {
      TraceKeeps(step(g).value, step, fuel - 1, k - 1, inv);
    }
  }

  lemma ParityStep(k: nat, p: PlayerTurn, x: PlayerTurn)
    requires x == (if k % 2 == 0 then p else Other(p))
    ensures Other(x) == if (k + 1) % 2 == 0 then p else Other(p)
  {
  }

  /** When every step hands the turn to the other player, the players
      alternate along a trace: after an even number of turns the player who
      started is to move again. */
  lemma {:induction false} TraceAlternates(g: Game, step: Game -> Option<Game>, fuel: nat, k: nat)
    requires forall x :: step(x).Some? ==> step(x).value.turn == Other(x.turn)
    requires k < |Trace(g, step, fuel)|
    ensures Trace(g, step, fuel)[k].turn == if k % 2 == 0 then g.turn else Other(g.turn)
  {
    if k > 0 {
      TraceAlternates(g, step, fuel, k - 1);
      TraceStep(g, step, fuel, k - 1);
      ParityStep(k - 1, g.turn, Trace(g, step, fuel)[k - 1].turn);
    }
  }

  /** Every step passes the turn to the other player. */
  lemma StepsAlternate(stream: nat -> nat)
    ensures forall x :: Steps(stream)(x).Some? ==> Steps(stream)(x).value.turn == Other(x.turn)
  {
    forall x | Steps(stream)(x).Some?
      ensures Steps(stream)(x).value.turn == Other(x.turn)
    {
      assert Steps(stream)(x) == Step(x, stream);
    }
  }

  /** A run whose every step passes the turn ends with the player to move
      fixed by the parity of the number of turns. */
  lemma RunAlternatesFor(g: Game, step: Game -> Option<Game>, fuel: nat)
    requires forall x :: step(x).Some? ==> step(x).value.turn == Other(x.turn)
    ensures var r := Run(g, step, fuel);
      r.final.turn == if r.turns % 2 == 0 then g.turn else Other(g.turn)
  {
    TraceAlternates(g, step, fuel, |Trace(g, step, fuel)| - 1);
  }

  /** A run's final game holds every property its steps keep. */
  lemma RunKeeps(g: Game, step: Game -> Option<Game>, fuel: nat, inv: Game -> bool)
    requires inv(g)
    requires forall x :: inv(x) && step(x).Some? ==> inv(step(x).value)
    ensures inv(Run(g, step, fuel).final)
  {
    TraceKeeps(g, step, fuel, |Trace(g, step, fuel)| - 1, inv);
  }

  /** The players alternate: after an even number of turns the player who
      started is to move again. */
  lemma RunAlternates(g: Game, stream: nat -> nat, fuel: nat)
    ensures var r := Run(g, Steps(stream), fuel);
      r.final.turn == if r.turns % 2 == 0 then g.turn else Other(g.turn)
  {
    StepsAlternate(stream);
    RunAlternatesFor(g, Steps(stream), fuel);
  }

  /** A run keeps Consistent. */
  lemma RunKeepsConsistent(g: Game, stream: nat -> nat, fuel: nat)
    requires Consistent(g)
    ensures Consistent(Run(g, Steps(stream), fuel).final)
  {
    forall x | Consistent(x) && Steps(stream)(x).Some?
      ensures Consistent(Steps(stream)(x).value)
    {
      StepKeepsConsistent(x, stream);
    }
    RunKeeps(g, Steps(stream), fuel, Consistent);
  }

  /** No run adds a card: the final cards are among the initial ones. */
  lemma RunNeverAddsCards(g: Game, stream: nat -> nat, fuel: nat)
    ensures multiset(GameCards(Run(g, Steps(stream), fuel).final)) <= multiset(GameCards(g))
  {
    var within := x => multiset(GameCards(x)) <= multiset(GameCards(g));
    forall x | within(x) && Steps(stream)(x).Some?
      ensures within(Steps(stream)(x).value)
    {
      StepCards(x, stream);
    }
    RunKeeps(g, Steps(stream), fuel, within);
  }

  /** In a consistent game, a step fails only on a reveal with at most one
      hidden card. */
  lemma StepFails(f: Game, stream: nat -> nat)
    requires Consistent(f) && Steps(stream)(f) == None
    ensures IsNoCardMarker(f.top) && |f.hidden| <= 1
  {
    TurnFails(TableOf(f), stream);
  }

  /** In a consistent game, drawing from an empty deck happens only on a
      reveal turn that finds at most one hidden card. */
  lemma RunFailure(g: Game, stream: nat -> nat, fuel: nat)
    requires Consistent(g)
    requires Run(g, Steps(stream), fuel).status == DrawFromEmptyDeck
    ensures var f := Run(g, Steps(stream), fuel).final; IsNoCardMarker(f.top) && |f.hidden| <= 1
  {
    var f := Run(g, Steps(stream), fuel).final;
    RunKeepsConsistent(g, stream, fuel);
    RunStops(g, Steps(stream), fuel);
    StepFails(f, stream);
  }

  /** A game that satisfies Consistent can stop on the undefined draw:
      player one's hand does not match the card revealed from a one-card
      hidden deck. (Whether such a game follows from an opening is not
      stated here.) */
  lemma DrawFromEmptyDeckPossible(stream: nat -> nat)
    ensures var g := Game([Card(Heart, Five)], [Card(Club, Three)], [Card(Club, Four)], [], NoCard, 0, PlayerOne);
      Consistent(g) && Run(g, Steps(stream), 1) == RunResult(DrawFromEmptyDeck, g, 0)
  {
    var g := Game([Card(Heart, Five)], [Card(Club, Three)], [Card(Club, Four)], [], NoCard, 0, PlayerOne);
    assert FirstMatch(g.hand1, Card(Heart, Five)) == -1;
  }

  /** The game after the k-th one of a trace, if any, is its Step. */
  lemma TraceNext(g0: Game, stream: nat -> nat, fuel: nat, k: nat)
    requires k < |Trace(g0, Steps(stream), fuel)| && k < fuel
    requires !Finished(Trace(g0, Steps(stream), fuel)[k])
    ensures var s := Trace(g0, Steps(stream), fuel);
      (k + 1 < |s| <==> Step(s[k], stream).Some?) && (k + 1 < |s| ==> s[k + 1] == Step(s[k], stream).value)
  {
    var s := Trace(g0, Steps(stream), fuel);
    if k + 1 < |s| {
      TraceStep(g0, Steps(stream), fuel, k);
    } else {
      TraceStops(g0, Steps(stream), fuel);
    }
  }

  /** Where startGame's loop stops on the trace, Run reads off its result. */
  lemma RunAt(g: Game, step: Game -> Option<Game>, fuel: nat, k: nat)
    requires k < |Trace(g, step, fuel)|
    requires Finished(Trace(g, step, fuel)[k]) || k == fuel || k + 1 == |Trace(g, step, fuel)|
    ensures Run(g, step, fuel) == RunResult(if Finished(Trace(g, step, fuel)[k]) then GameOver
      else if k == fuel then OutOfFuel else DrawFromEmptyDeck, Trace(g, step, fuel)[k], k)
  {
    if k + 1 < |Trace(g, step, fuel)| {
      TraceStep(g, step, fuel, k);
    }
  }
}
