/** The mutable card container DeckOfCards (cardgame.h:48-52) and the
    operations of cardgame.c that change it in place: addCardToDeck,
    drawCard, the removal from a hand inside takeTurn, shuffleDeck and
    customSort. The C buffer that realloc resizes is an array that is replaced
    by a fresh one of the new length. */
module Decks {
  import opened Cards
  import opened Shuffling
  import opened RankOrder

  /** DeckOfCards: a buffer of cards, the number of cards in use, and the
      topCard field (meaningful only for the played deck). */
  class Deck {
    var cards: array<Card>
    var size: int
    var topCard: Card

    /** size counts the cards in use; the buffer may be longer (takeTurn sets
        the played deck's size to 0 without shrinking its buffer). */
    ghost predicate Valid()
      reads this
    {
      0 <= size <= cards.Length
    }

    /** The cards of the deck, bottom first; the last one is the top. */
    ghost function Contents(): seq<Card>
      reads this, cards
      requires Valid()
    {
      cards[..size]
    }

    /** The deck `{ NULL, 0, {0} }`. */
    constructor ()
      ensures Valid() && fresh(cards) && Contents() == [] && topCard == NoCard
    {
      cards := new Card[0];
      size := 0;
      topCard := NoCard;
    }

    /** realloc of the buffer to n cards, keeping the cards in use. */
    method Realloc(n: int)
      requires Valid() && size <= n
      modifies this
      ensures Valid() && fresh(cards) && cards.Length == n
      ensures size == old(size) && topCard == old(topCard)
      ensures Contents() == old(Contents())
    {
      var buffer := new Card[n];
      var i := 0;
      while i < size
        invariant 0 <= i <= size
        invariant buffer[..i] == cards[..i]
        modifies buffer
      {
        buffer[i] := cards[i];
        i := i + 1;
      }
      cards := buffer;
    }

    /** addCardToDeck: the card goes to index size, which grows by one. */
    method AddCard(card: Card)
      requires Valid()
      modifies this
      ensures Valid() && fresh(cards) && size == old(size) + 1
      ensures Contents() == old(Contents()) + [card]
      ensures topCard == old(topCard)
    {
      Realloc(size + 1);
      cards[size] := card;
      size := size + 1;
    }

    /** drawCard: removes and returns the last card. Drawing from an empty
        deck reads outside the buffer in C, so the deck must not be empty. */
    method DrawCard() returns (card: Card)
      requires Valid() && size > 0
      modifies this
      ensures Valid() && fresh(cards) && size == old(size) - 1
      ensures card == old(Contents())[old(size) - 1]
      ensures Contents() == old(Contents())[..old(size) - 1]
      ensures topCard == old(topCard)
    {
      card := cards[size - 1];
      size := size - 1;
      Realloc(size);
    }

    /** Removal of the card at index k from a hand: the later cards shift one
        place left and the buffer shrinks by one. */
    method RemoveAt(k: int)
      requires Valid() && 0 <= k < size
      modifies this, cards
      ensures Valid() && fresh(cards) && size == old(size) - 1
      ensures Contents() == old(Contents())[..k] + old(Contents())[k + 1..]
      ensures topCard == old(topCard)
    {
      ghost var s := cards[..size];
      size := size - 1;
      var i := k;
      while i < size
        invariant k <= i <= size
        invariant forall q :: 0 <= q < k ==> cards[q] == s[q]
        invariant forall q :: k <= q < i ==> cards[q] == s[q + 1]
        invariant forall q :: i < q <= size ==> cards[q] == s[q]
        modifies cards
      {
        cards[i] := cards[i + 1];
        i := i + 1;
      }
      assert cards[..size] == s[..k] + s[k + 1..];
      Realloc(size);
    }

    /** The temp-variable exchange of the cards at i and j. */
    method Exchange(i: int, j: int)
      requires Valid() && 0 <= i < size && 0 <= j < size
      modifies cards
      ensures Contents() == Swap(old(Contents()), i, j)
    {
      ghost var before := cards[..size];
      var temp := cards[i];
      cards[i] := cards[j];
      cards[j] := temp;
      assert cards[..size] == before[i := before[j]][j := before[i]];
    }

    /** shuffleDeck: for i from size - 1 down to 1, swap i with rand() % (i + 1).
        The rand() calls are the stream values from index calls on; calls' is
        the number of calls made once the shuffle is over. */
    method Shuffle(stream: nat -> nat, calls: nat) returns (calls': nat)
      requires Valid()
      modifies cards
      ensures Valid()
      ensures Contents() == Shuffled(old(Contents()), stream, calls)
      ensures calls' == calls + ShuffleRolls(size)
    {
      ghost var target := Shuffled(Contents(), stream, calls);
      calls' := calls;
      var i := size - 1;
      while i > 0
        invariant Valid() && -1 <= i < size && (size > 0 ==> 0 <= i)
        invariant calls' == calls + (size - 1 - i)
        invariant ShuffleFrom(Contents(), i, stream, calls') == target
      {
        var j := ShufflePass(i, stream, calls', target);
        calls' := calls' + 1;
        i := i - 1;
      }
    }

    /** One pass of shuffleDeck's loop: the card at i is exchanged with the
        one at j = rand() % (i + 1), which leaves the passes from i - 1 on to do. */
    method ShufflePass(i: int, stream: nat -> nat, calls: nat, ghost target: seq<Card>) returns (j: int)
      requires Valid() && 0 < i < size
      requires ShuffleFrom(Contents(), i, stream, calls) == target
      modifies cards
      ensures Valid() && j == stream(calls) % (i + 1) && 0 <= j <= i
      ensures Contents() == Swap(old(Contents()), i, j)
      ensures ShuffleFrom(Contents(), i - 1, stream, calls + 1) == target
    {
      ghost var before := cards[..size];
      j := stream(calls) % (i + 1);
      ShuffleStep(before, i, stream, calls, j);
      Exchange(i, j);
    }

    /** One pass of customSort's inner loop over positions 0 .. m: it carries
        a card of maximal rank to position m, exchanging neighbours only when
        the left one has the strictly greater rank. */
    method BubblePass(n: int, m: int)
      requires Valid() && 0 <= m < n <= size
      requires SortedAbove(cards[..n], m + 1) && PartitionedAt(cards[..n], m + 1)
      modifies cards
      ensures SortedAbove(cards[..n], m) && PartitionedAt(cards[..n], m)
      ensures SameRankOrder(cards[..n], old(cards[..n]))
    {
      ghost var s := cards[..n];
      var j := 0;
      while j < m
        invariant 0 <= j <= m
        invariant PeakAt(cards[..n], j) && SortedAbove(cards[..n], m + 1) && PartitionedAt(cards[..n], m + 1)
        invariant SameRankOrder(cards[..n], s)
      {
        BubbleStep(cards[..n], j, m, s);
        CompareExchangeAt(n, j);
        j := j + 1;
      }
      BubbleDone(cards[..n], m);
    }

    /** The body of customSort's inner loop at j: the cards at j and j + 1
        are exchanged when the left one has the greater rank. */
    method CompareExchangeAt(n: int, j: int)
      requires Valid() && 0 <= j && j + 1 < n <= size
      modifies cards
      ensures cards[..n] == CompareExchange(old(cards[..n]), j)
    {
      ghost var before := cards[..n];
      if cards[j].rank.Ord() > cards[j + 1].rank.Ord() {
        cards[j], cards[j + 1] := cards[j + 1], cards[j];
        assert cards[..n] == before[j := before[j + 1]][j + 1 := before[j]];
      }
    }

    /** customSort: bubble sort by rank that swaps neighbours only when the
        left one has the strictly greater rank. The result is the stable
        rank order RankSort. */
    method CustomSort()
      requires Valid()
      modifies cards
      ensures Valid()
      ensures Contents() == RankSort(old(Contents()))
    {
      ghost var s := cards[..size];
      var n := size;
      var i := 0;
      while i < n - 1
        invariant 0 <= i <= if n >= 1 then n - 1 else 0
        invariant SortedAbove(cards[..n], n - i) && PartitionedAt(cards[..n], n - i)
        invariant SameRankOrder(cards[..n], s)
      {
        BubblePass(n, n - i - 1);
        i := i + 1;
      }
      assert SortedByRank(cards[..n]);
      RankSortCorrect(s);
      StableSortUnique(cards[..n], RankSort(s));
    }
  }

  /** Ranks never decrease over positions lo .. |s| - 1. */
  ghost predicate SortedAbove(s: seq<Card>, lo: nat)
  {
    forall a, b :: lo <= a < b < |s| ==> s[a].rank.Ord() <= s[b].rank.Ord()
  }

  /** Every card before position m has rank at most that of every card from m on. */
  ghost predicate PartitionedAt(s: seq<Card>, m: int)
  {
    forall a, b :: 0 <= a < m <= b < |s| ==> s[a].rank.Ord() <= s[b].rank.Ord()
  }

  /** No card at or before position j has a greater rank than the one at j. */
  ghost predicate PeakAt(s: seq<Card>, j: int)
  {
    forall a :: 0 <= a <= j < |s| ==> s[a].rank.Ord() <= s[j].rank.Ord()
  }

  /** The inner loop's step at j: the cards at j and j + 1 are exchanged when
      the left one has the greater rank. */
  function CompareExchange(s: seq<Card>, j: int): (t: seq<Card>)
    requires 0 <= j && j + 1 < |s|
    ensures |t| == |s|
  {
    if s[j].rank.Ord() > s[j + 1].rank.Ord() then Swap(s, j, j + 1) else s
  }

  /** A step of the inner loop carries the largest rank seen so far one
      position up, leaves the sorted top part alone and keeps every rank's
      cards in order. */
  lemma BubbleStep(s: seq<Card>, j: int, m: int, orig: seq<Card>)
    requires 0 <= j < m < |s|
    requires PeakAt(s, j) && SortedAbove(s, m + 1) && PartitionedAt(s, m + 1)
    requires SameRankOrder(s, orig)
    ensures var t := CompareExchange(s, j);
      PeakAt(t, j + 1) && SortedAbove(t, m + 1) && PartitionedAt(t, m + 1) && SameRankOrder(t, orig)
  {
    if s[j].rank.Ord() > s[j + 1].rank.Ord() {
      SwapKeeps(s, j, j + 1);
      SwapUnequalRanks(s, j);
    }
  }

  /** At the end of a pass the card at m joins the sorted top part. */
  lemma BubbleDone(s: seq<Card>, m: int)
    requires 0 <= m < |s|
    requires PeakAt(s, m) && SortedAbove(s, m + 1) && PartitionedAt(s, m + 1)
    ensures SortedAbove(s, m) && PartitionedAt(s, m)
  {
  }

  /** Two decks that share neither the record nor the buffer. */
  ghost predicate Apart(a: Deck, b: Deck)
    reads a, b
  {
    a != b && a.cards != b.cards
  }
}
