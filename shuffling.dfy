/** The Fisher–Yates (Durstenfeld) shuffle of shuffleDeck as a function of the
    deck and of the values rand() returns. The k-th call to rand() from the
    start of the program returns stream(k); the loop at index i swaps i with
    stream(k) % (i + 1). */
module Shuffling {
  import opened Cards

  /** The index the pass at index i swaps with: rand() % (i + 1), where this
      is the rand() call number calls. */
  function Roll(stream: nat -> nat, calls: nat, i: nat): (j: nat)
    ensures j <= i
  {
    stream(calls) % (i + 1)
  }

  /** The passes of the shuffle loop from index i down to 1, where the pass at
      index i uses the rand() call number calls. */
  function ShuffleFrom(s: seq<Card>, i: int, stream: nat -> nat, calls: nat): (r: seq<Card>)
    requires -1 <= i < |s|
    ensures |r| == |s|
    decreases i
  {
    if i <= 0 then s
    else ShuffleFrom(Swap(s, i, Roll(stream, calls, i)), i - 1, stream, calls + 1)
  }

  /** The passes only exchange cards: none is lost or added. */
  lemma {:induction false} ShuffleFromKeepsCards(s: seq<Card>, i: int, stream: nat -> nat, calls: nat)
    requires -1 <= i < |s|
    ensures multiset(ShuffleFrom(s, i, stream, calls)) == multiset(s)
    decreases i
  {
    if i > 0 {
      var t := Swap(s, i, Roll(stream, calls, i));
      SwapKeeps(s, i, Roll(stream, calls, i));
      ShuffleFromKeepsCards(t, i - 1, stream, calls + 1);
      assert ShuffleFrom(s, i, stream, calls) == ShuffleFrom(t, i - 1, stream, calls + 1);
    }
  }

  /** One pass of the loop, unfolded. */
  lemma ShuffleStep(s: seq<Card>, i: int, stream: nat -> nat, calls: nat, j: int)
    requires 0 < i < |s| && j == Roll(stream, calls, i)
    ensures 0 <= j <= i
    ensures ShuffleFrom(s, i, stream, calls) == ShuffleFrom(Swap(s, i, j), i - 1, stream, calls + 1)
  {
  }

  /** shuffleDeck's result on a deck whose cards are s. */
  function Shuffled(s: seq<Card>, stream: nat -> nat, calls: nat): (r: seq<Card>)
    ensures |r| == |s|
    ensures |s| <= 1 ==> r == s
  {
    ShuffleFrom(s, |s| - 1, stream, calls)
  }

  /** The shuffled deck holds the same cards, each as often as before. */
  lemma ShuffledKeepsCards(s: seq<Card>, stream: nat -> nat, calls: nat)
    ensures multiset(Shuffled(s, stream, calls)) == multiset(s)
  {
    ShuffleFromKeepsCards(s, |s| - 1, stream, calls);
  }

  /** The number of rand() calls shuffleDeck makes on a deck of n cards. */
  function ShuffleRolls(n: int): nat
  {
    if n <= 1 then 0 else n - 1
  }

  /** Positions above the loop index are final: later passes never touch them. */
  lemma {:induction false} ShuffleFromKeepsAbove(s: seq<Card>, i: int, stream: nat -> nat, calls: nat, k: int)
    requires -1 <= i < |s| && i < k < |s|
    ensures ShuffleFrom(s, i, stream, calls)[k] == s[k]
    decreases i
  {
    if i > 0 {
      var t := Swap(s, i, Roll(stream, calls, i));
      SwapKeeps(s, i, Roll(stream, calls, i));
      ShuffleFromKeepsAbove(t, i - 1, stream, calls + 1, k);
      assert ShuffleFrom(s, i, stream, calls) == ShuffleFrom(t, i - 1, stream, calls + 1);
    }
  }

  /** The Fisher–Yates passes fix the last position first: the card that ends
      on top of the shuffled deck is the one the first rand() call chose. */
  lemma ShuffledTop(s: seq<Card>, stream: nat -> nat, calls: nat)
    requires |s| >= 2
    ensures Shuffled(s, stream, calls)[|s| - 1] == s[Roll(stream, calls, |s| - 1)]
  {
    var n := |s|;
    var j := Roll(stream, calls, n - 1);
    var t := Swap(s, n - 1, j);
    assert ShuffleFrom(s, n - 1, stream, calls) == ShuffleFrom(t, n - 2, stream, calls + 1);
    ShuffleFromKeepsAbove(t, n - 2, stream, calls + 1, n - 1);
    assert t[n - 1] == s[j];
  }
}
