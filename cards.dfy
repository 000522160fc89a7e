/** The value types of the card game (cardgame.h): suits, ranks, cards, the
    player marker, and the matching rule of canPlayCard. */
module Cards {

  /** The four suits, in the order of their C enumerators Club(0) .. Diamond(3). */
  datatype Suit = Club | Spade | Heart | Diamond {
    /** The integer value the C enumerator has. */
    function Ord(): (n: nat)
      ensures n < 4
    {
      match this
      case Club => 0
      case Spade => 1
      case Heart => 2
      case Diamond => 3
    }
  }

  /** The thirteen ranks, in the order of their C enumerators Two(0) .. Ace(12). */
  datatype Rank = Two | Three | Four | Five | Six | Seven | Eight | Nine | Ten | Jack | Queen | King | Ace {
    /** The integer value the C enumerator has; customSort compares these. */
    function Ord(): (n: nat)
      ensures n < 13
    {
      match this
      case Two => 0
      case Three => 1
      case Four => 2
      case Five => 3
      case Six => 4
      case Seven => 5
      case Eight => 6
      case Nine => 7
      case Ten => 8
      case Jack => 9
      case Queen => 10
      case King => 11
      case Ace => 12
    }
  }

  /** The suit whose enumerator is n (initializeDeck converts its loop counter this way). */
  function SuitOf(n: nat): (s: Suit)
    requires n < 4
    ensures s.Ord() == n
  {
    if n == 0 then Club else if n == 1 then Spade else if n == 2 then Heart else Diamond
  }

  /** The rank whose enumerator is n. */
  function RankOf(n: nat): (r: Rank)
    requires n < 13
    ensures r.Ord() == n
  {
    if n == 0 then Two else if n == 1 then Three else if n == 2 then Four
    else if n == 3 then Five else if n == 4 then Six else if n == 5 then Seven
    else if n == 6 then Eight else if n == 7 then Nine else if n == 8 then Ten
    else if n == 9 then Jack else if n == 10 then Queen else if n == 11 then King
    else Ace
  }

  /** Ordinals and enumerators are in one-to-one correspondence: exactly four
      suits and exactly thirteen ranks, each named by its ordinal. */
  lemma EnumeratorsRoundTrip(s: Suit, r: Rank)
    ensures SuitOf(s.Ord()) == s && RankOf(r.Ord()) == r
  {
  }

  /** A playing card: a (suit, rank) pair with structural equality. */
  datatype Card = Card(suit: Suit, rank: Rank)

  /** The zero-initialised card `{0}` that a fresh deck carries as its topCard. */
  const NoCard: Card := Card(Club, Two)

  /** takeTurn's test for "no card played yet": the top card's rank has value 0.
      Value 0 is the real rank Two, so a played Two passes the test as well. */
  predicate IsNoCardMarker(c: Card): (b: bool)
    ensures b <==> c.rank == Two
  {
    c.rank.Ord() == 0
  }

  /** The player-turn marker. */
  datatype PlayerTurn = PlayerOne | PlayerTwo

  /** The matching rule: a card can be played on the top card when it has the
      same rank or the same suit. */
  predicate CanPlayCard(card: Card, topCard: Card)
  {
    card.rank == topCard.rank || card.suit == topCard.suit
  }

  /** The truth table of the matching rule and its symmetry. */
  lemma MatchingRule(card: Card, topCard: Card)
    ensures card.rank == topCard.rank ==> CanPlayCard(card, topCard)
    ensures card.suit == topCard.suit ==> CanPlayCard(card, topCard)
    ensures card.rank != topCard.rank && card.suit != topCard.suit ==> !CanPlayCard(card, topCard)
    ensures CanPlayCard(card, topCard) == CanPlayCard(topCard, card)
  {
  }

  /** The sequence s with the cards at i and j exchanged (the temp-variable swap). */
  function Swap(s: seq<Card>, i: int, j: int): (r: seq<Card>)
    requires 0 <= i < |s| && 0 <= j < |s|
    ensures |r| == |s| && r[i] == s[j] && r[j] == s[i]
  {
    s[i := s[j]][j := s[i]]
  }

  /** An exchange leaves every other position alone and keeps the cards. */
  lemma SwapKeeps(s: seq<Card>, i: int, j: int)
    requires 0 <= i < |s| && 0 <= j < |s|
    ensures forall k :: 0 <= k < |s| && k != i && k != j ==> Swap(s, i, j)[k] == s[k]
    ensures multiset(Swap(s, i, j)) == multiset(s)
  {
  }
}
