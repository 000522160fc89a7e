/** takeTurn (cardgame.c:179-232) as a function on the contents of the three
    decks it touches. The four steps are the reveal on the "no card" marker,
    the first-match play, the draw when nothing matches, and the reshuffle
    once the hidden deck is empty. drawCard on an empty deck has undefined
    behaviour in C; a turn that reaches it yields DrawFromEmpty. */
module Turns {
  import opened Cards
  import opened Shuffling

  /** What one turn sees and changes: the hidden deck, the hand of the
      player to move, the played pile with its topCard, and the number of
      rand() calls made so far. Every sequence lists its deck bottom first. */
  datatype Table = Table(hidden: seq<Card>, hand: seq<Card>, played: seq<Card>, top: Card, calls: nat)

  datatype TurnResult = Completed(after: Table) | DrawFromEmpty

  /** All the cards on the table. */
  function AllCards(t: Table): seq<Card>
  {
    t.hidden + t.hand + t.played
  }

  /** The first index from i on whose card can be played on target, or -1. */
  function FirstMatchFrom(hand: seq<Card>, target: Card, i: nat): (m: int)
    requires i <= |hand|
    ensures m == -1 || i <= m < |hand|
    ensures m != -1 ==> CanPlayCard(hand[m], target)
    decreases |hand| - i
  {
    if i == |hand| then -1
    else if CanPlayCard(hand[i], target) then i
    else FirstMatchFrom(hand, target, i + 1)
  }

  /** No card from i on before the one FirstMatchFrom finds can be played. */
  lemma {:induction false} FirstMatchFromFirst(hand: seq<Card>, target: Card, i: nat)
    requires i <= |hand|
    ensures var m := FirstMatchFrom(hand, target, i);
      forall k :: i <= k < |hand| && (m == -1 || k < m) ==> !CanPlayCard(hand[k], target)
    decreases |hand| - i
  {
    if i < |hand| && !CanPlayCard(hand[i], target) {
      FirstMatchFromFirst(hand, target, i + 1);
    }
  }

  /** The matchIndex of takeTurn: the lowest index of a playable card, or -1
      when no card of the hand can be played. */
  function FirstMatch(hand: seq<Card>, target: Card): (m: int)
    ensures m == -1 || 0 <= m < |hand|
    ensures m != -1 ==> CanPlayCard(hand[m], target)
  {
    FirstMatchFrom(hand, target, 0)
  }

  /** FirstMatch finds the first playable card: none before it can be played,
      and none at all when it is -1. */
  lemma FirstMatchFirst(hand: seq<Card>, target: Card)
    ensures var m := FirstMatch(hand, target);
      forall k :: 0 <= k < |hand| && (m == -1 || k < m) ==> !CanPlayCard(hand[k], target)
  {
    FirstMatchFromFirst(hand, target, 0);
  }

  /** The reshuffle at the end of a turn: when the hidden deck is empty, it
      becomes the shuffled played pile, the pile becomes empty, and the
      topCard's rank is set to 0 (Two) with its suit kept. */
  function Reshuffled(t: Table, stream: nat -> nat): Table
  {
    if t.hidden != [] then t
    else Table(Shuffled(t.played, stream, t.calls), t.hand, [], Card(t.top.suit, Two),
               t.calls + ShuffleRolls(|t.played|))
  }

  /** The reshuffle loses no card, does not touch the hand, and leaves the
      hidden deck empty only when there was nothing to move into it. */
  lemma ReshuffledKeepsCards(t: Table, stream: nat -> nat)
    ensures var r := Reshuffled(t, stream);
      multiset(AllCards(r)) == multiset(AllCards(t)) && r.hand == t.hand && r.calls >= t.calls
      && (r.hidden == [] <==> t.hidden == [] && t.played == [])
  {
    if t.hidden == [] {
      ShuffledKeepsCards(t.played, stream, t.calls);
      var r := Reshuffled(t, stream);
      assert AllCards(r) == r.hidden + t.hand + [];
      assert AllCards(t) == [] + t.hand + t.played;
    }
  }

  /** The match branch: the card at index m leaves the hand, the other cards
      keeping their order, and goes onto the played pile, whose topCard it
      becomes. */
  function PlayAt(t: Table, m: int): Table
    requires 0 <= m < |t.hand|
  {
    Table(t.hidden, Without(t.hand, m), t.played + [t.hand[m]], t.hand[m], t.calls)
  }

  function Without(s: seq<Card>, m: nat): (r: seq<Card>)
    requires m < |s|
    ensures |r| == |s| - 1
  {
    if m == 0 then s[1..] else [s[0]] + Without(s[1..], m - 1)
  }

  /** Without drops exactly the card at index m. */
  lemma {:induction false} WithoutIs(s: seq<Card>, m: nat)
    requires m < |s|
    ensures Without(s, m) == s[..m] + s[m + 1..]
  {
    if m > 0 {
      WithoutIs(s[1..], m - 1);
      assert s[1..][..m - 1] == s[1..m] && s[1..][m..] == s[m + 1..];
      assert s[..m] == [s[0]] + s[1..m];
    }
  }
  /** The played card moves from the hand to the pile; no card is lost. */
  lemma PlayAtKeepsCards(t: Table, m: int)
    requires 0 <= m < |t.hand|
    ensures multiset(AllCards(PlayAt(t, m))) == multiset(AllCards(t))
  {
    WithoutIs(t.hand, m);
    assert t.hand == t.hand[..m] + [t.hand[m]] + t.hand[m + 1..];
  }

  /** The no-match branch: the last hidden card is appended to the hand; the
      played pile and its topCard stay as they are. */
  function DrawToHand(t: Table): Table
    requires t.hidden != []
  {
    Table(t.hidden[..|t.hidden| - 1], t.hand + [t.hidden[|t.hidden| - 1]], t.played, t.top, t.calls)
  }

  /** The drawn card moves from the hidden deck to the hand; no card is lost. */
  lemma DrawToHandKeepsCards(t: Table)
    requires t.hidden != []
    ensures multiset(AllCards(DrawToHand(t))) == multiset(AllCards(t))
  {
    var n := |t.hidden|;
    assert t.hidden == t.hidden[..n - 1] + [t.hidden[n - 1]];
  }

  /** The branch of takeTurn chosen by the match index m: the play when m is
      not -1, the draw otherwise. */
  function Move(t: Table, m: int): Table
    requires -1 <= m < |t.hand| && (m == -1 ==> t.hidden != [])
  {
    if m != -1 then PlayAt(t, m) else DrawToHand(t)
  }

  /** Either branch keeps every card of the table. */
  lemma MoveKeepsCards(t: Table, m: int)
    requires -1 <= m < |t.hand| && (m == -1 ==> t.hidden != [])
    ensures multiset(AllCards(Move(t, m))) == multiset(AllCards(t))
  {
    if m != -1 {
      PlayAtKeepsCards(t, m);
    } else {
      DrawToHandKeepsCards(t);
    }
  }

  /** The rest of a turn once its target is known, on a table whose hidden
      deck is the one left after the reveal: the first-match play, or the
      draw when no card matches, then the reshuffle. */
  function Respond(t: Table, target: Card, stream: nat -> nat): TurnResult
  {
    var m := FirstMatch(t.hand, target);
    if m == -1 && t.hidden == [] then DrawFromEmpty
    else Completed(Reshuffled(Move(t, m), stream))
  }

  /** One turn of the player whose hand is t.hand: on the "no card" rank the
      last hidden card is drawn as the target (and then dropped); otherwise
      the topCard is the target. */
  function Turn(t: Table, stream: nat -> nat): TurnResult
  {
    var marked := IsNoCardMarker(t.top);
    if marked && t.hidden == [] then DrawFromEmpty
    else
      var target := if marked then t.hidden[|t.hidden| - 1] else t.top;
      var hidden := if marked then t.hidden[..|t.hidden| - 1] else t.hidden;
      Respond(t.(hidden := hidden), target, stream)
  }

  /** The played pile and its topCard agree: either nothing has been played
      since the start or the last reshuffle and the topCard carries rank 0,
      or the topCard is the last card played. */
  predicate PileAgrees(t: Table)
  {
    (t.played == [] && IsNoCardMarker(t.top)) || (t.played != [] && t.top == t.played[|t.played| - 1])
  }

  /** Between turns the hidden deck is empty only when the topCard carries
      the "no card" rank, since the reshuffle refills it or sets that rank. */
  predicate Settled(t: Table)
  {
    t.hidden != [] || IsNoCardMarker(t.top)
  }

  /** Under PileAgrees a turn reveals a hidden card exactly when the played
      pile is empty or its last card is a Two: a played Two cannot be told
      apart from "no card played". */
  lemma RevealCondition(t: Table)
    requires PileAgrees(t)
    ensures IsNoCardMarker(t.top) <==> t.played == [] || t.played[|t.played| - 1].rank == Two
  {
  }

  /** The reshuffle keeps PileAgrees and leaves the table Settled. */
  lemma ReshuffledSettles(u: Table, stream: nat -> nat)
    requires PileAgrees(u)
    ensures PileAgrees(Reshuffled(u, stream)) && Settled(Reshuffled(u, stream))
  {
  }

  /** Every completed turn keeps PileAgrees and leaves the table Settled. */
  lemma TurnKeepsInvariants(t: Table, stream: nat -> nat)
    requires PileAgrees(t)
    requires Turn(t, stream).Completed?
    ensures PileAgrees(Turn(t, stream).after)
    ensures Settled(Turn(t, stream).after)
  {
    var marked := IsNoCardMarker(t.top);
    var target := if marked then t.hidden[|t.hidden| - 1] else t.top;
    var t' := t.(hidden := if marked then t.hidden[..|t.hidden| - 1] else t.hidden);
    var u := Move(t', FirstMatch(t.hand, target));
    assert Turn(t, stream).after == Reshuffled(u, stream);
    assert PileAgrees(u);
    ReshuffledSettles(u, stream);
  }

  /** Once the target is known, the rest of a turn keeps every card. */
  lemma RespondKeepsCards(t: Table, target: Card, stream: nat -> nat)
    requires Respond(t, target, stream).Completed?
    ensures multiset(AllCards(Respond(t, target, stream).after)) == multiset(AllCards(t))
  {
    var m := FirstMatch(t.hand, target);
    MoveKeepsCards(t, m);
    ReshuffledKeepsCards(Move(t, m), stream);
  }

  /** A turn with no reveal keeps every card: what leaves the hand goes to the
      played pile and what leaves the hidden deck goes to the hand. */
  lemma TurnKeepsCards(t: Table, stream: nat -> nat)
    requires !IsNoCardMarker(t.top)
    requires Turn(t, stream).Completed?
    ensures multiset(AllCards(Turn(t, stream).after)) == multiset(AllCards(t))
  {
    assert Turn(t, stream) == Respond(t, t.top, stream);
    RespondKeepsCards(t, t.top, stream);
  }

  /** A turn that reveals takes the last hidden card out of the game: the
      cards after the turn are those before it less exactly that card. */
  lemma RevealLosesCard(t: Table, stream: nat -> nat)
    requires IsNoCardMarker(t.top)
    requires Turn(t, stream).Completed?
    ensures t.hidden != []
    ensures multiset(AllCards(Turn(t, stream).after)) + multiset{t.hidden[|t.hidden| - 1]} == multiset(AllCards(t))
  {
    var n := |t.hidden|;
    var x := t.hidden[n - 1];
    var t' := t.(hidden := t.hidden[..n - 1]);
    assert Turn(t, stream) == Respond(t', x, stream);
    RespondKeepsCards(t', x, stream);
    assert t.hidden == t'.hidden + [x];
    LoseOne(t'.hidden, x, t.hand, t.played);
  }

  /** The cards of a table whose hidden deck has x on top are those of the
      table without x, and x. */
  lemma LoseOne(h: seq<Card>, x: Card, hand: seq<Card>, played: seq<Card>)
    ensures multiset(h + [x] + hand + played) == multiset(h + hand + played) + multiset{x}
  {
  }

  /** No turn adds a card to the table. */
  lemma TurnNeverAddsCards(t: Table, stream: nat -> nat)
    requires Turn(t, stream).Completed?
    ensures multiset(AllCards(Turn(t, stream).after)) <= multiset(AllCards(t))
  {
    if IsNoCardMarker(t.top) {
      RevealLosesCard(t, stream);
    } else {
      TurnKeepsCards(t, stream);
    }
  }

  /** The two ways the rest of a turn changes the hand: when a card of the
      hand can be played on target, the first such card leaves it and the
      others keep their order; otherwise the top (last) hidden card is
      appended to it. */
  lemma RespondHand(t: Table, target: Card, stream: nat -> nat)
    requires Respond(t, target, stream).Completed?
    ensures var h := Respond(t, target, stream).after.hand;
      if exists k :: 0 <= k < |t.hand| && CanPlayCard(t.hand[k], target) then
        exists m :: 0 <= m < |t.hand| && CanPlayCard(t.hand[m], target)
          && (forall k :: 0 <= k < m ==> !CanPlayCard(t.hand[k], target))
          && h == t.hand[..m] + t.hand[m + 1..]
      else t.hidden != [] && h == t.hand + [t.hidden[|t.hidden| - 1]]
  {
    var m := FirstMatch(t.hand, target);
    FirstMatchFirst(t.hand, target);
    var u := Move(t, m);
    ReshuffledKeepsCards(u, stream);
    assert Respond(t, target, stream).after.hand == u.hand;
    if m != -1 {
      WithoutIs(t.hand, m);
      assert u.hand == t.hand[..m] + t.hand[m + 1..];
    } else {
      assert u.hand == t.hand + [t.hidden[|t.hidden| - 1]];
    }
  }

  /** The two ways a turn changes the hand, with the revealed card or the
      topCard as the target; a drawn card is the top of the hidden deck left
      after the reveal (the card below the revealed one). */
  lemma TurnHand(t: Table, stream: nat -> nat)
    requires Turn(t, stream).Completed?
    ensures var target := if IsNoCardMarker(t.top) then t.hidden[|t.hidden| - 1] else t.top;
      var rest := if IsNoCardMarker(t.top) then t.hidden[..|t.hidden| - 1] else t.hidden;
      var h := Turn(t, stream).after.hand;
      if exists k :: 0 <= k < |t.hand| && CanPlayCard(t.hand[k], target) then
        exists m :: 0 <= m < |t.hand| && CanPlayCard(t.hand[m], target)
          && (forall k :: 0 <= k < m ==> !CanPlayCard(t.hand[k], target))
          && h == t.hand[..m] + t.hand[m + 1..]
      else rest != [] && h == t.hand + [rest[|rest| - 1]]
  {
    var marked := IsNoCardMarker(t.top);
    var target := if marked then t.hidden[|t.hidden| - 1] else t.top;
    var t' := t.(hidden := if marked then t.hidden[..|t.hidden| - 1] else t.hidden);
    assert Turn(t, stream) == Respond(t', target, stream);
    RespondHand(t', target, stream);
  }

  /** With at least two hidden cards a turn always completes: the reveal and
      the draw each take one. */
  lemma TurnCompletes(t: Table, stream: nat -> nat)
    requires |t.hidden| >= 2
    ensures Turn(t, stream).Completed?
  {
  }

  /** On a Settled table, the two ways a turn reaches drawCard on an empty
      deck: a reveal with an empty hidden deck, or a reveal that takes the
      last hidden card when no card of the hand matches it. */
  lemma TurnFails(t: Table, stream: nat -> nat)
    requires Settled(t)
    ensures Turn(t, stream) == DrawFromEmpty <==>
      IsNoCardMarker(t.top) &&
      (t.hidden == [] || (|t.hidden| == 1 && FirstMatch(t.hand, t.hidden[0]) == -1))
  {
  }
}
