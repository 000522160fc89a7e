/** The card order initializeDeck produces (cardgame.c:42-52): packs one
    after another; in each pack the suits Club .. Diamond; in each suit the
    ranks Two .. Ace. */
module PackOrder {
  import opened Cards

  /** One pack: the card at index 13 * s + r has suit number s and rank number r. */
  function Pack(): seq<Card>
  {
    seq(52, i requires 0 <= i < 52 => Card(SuitOf(i / 13), RankOf(i % 13)))
  }

  /** The cards of suit number s, up to rank number r, grow by rank r. */
  lemma PackSuitGrows(s: int, r: int)
    requires 0 <= s < 4 && 0 <= r < 13
    ensures Pack()[13 * s..13 * s + r + 1] == Pack()[13 * s..13 * s + r] + [Card(SuitOf(s), RankOf(r))]
  {
    assert Pack()[13 * s + r] == Card(SuitOf(s), RankOf(r));
  }

  /** numPacks packs, in the order initializeDeck adds them. A count below one
      adds nothing, as the C loop does. */
  function Packs(numPacks: int): (s: seq<Card>)
    ensures |s| == if numPacks <= 0 then 0 else 52 * numPacks
  {
    if numPacks <= 0 then [] else Packs(numPacks - 1) + Pack()
  }

  /** The position of every card of a pack: pack-major, then suit, then rank. */
  lemma {:induction false} PacksAt(numPacks: int, p: int, s: int, r: int)
    requires 0 <= p < numPacks && 0 <= s < 4 && 0 <= r < 13
    ensures Packs(numPacks)[52 * p + 13 * s + r] == Card(SuitOf(s), RankOf(r))
  {
    if p < numPacks - 1 {
      PacksAt(numPacks - 1, p, s, r);
    } else {
      assert Packs(numPacks) == Packs(numPacks - 1) + Pack();
      assert Pack()[13 * s + r] == Card(SuitOf(s), RankOf(r));
    }
  }

  /** No card occurs twice in s. */
  predicate Distinct(s: seq<Card>)
  {
    forall i, j :: 0 <= i < j < |s| ==> s[i] != s[j]
  }

  lemma {:induction false} DistinctCount(s: seq<Card>, c: Card)
    requires Distinct(s)
    ensures multiset(s)[c] == if c in s then 1 else 0
  {
    if s != [] {
      var t, x := s[..|s| - 1], s[|s| - 1];
      assert s == t + [x];
      assert Distinct(t);
      DistinctCount(t, c);
      if c == x {
        assert c !in t;
      }
    }
  }

  /** A pack holds every card exactly once. */
  lemma PackOnce(c: Card)
    ensures multiset(Pack())[c] == 1
  {
    var p := Pack();
    forall i, j | 0 <= i < j < 52
      ensures p[i] != p[j]
    {
      assert p[i].suit.Ord() == i / 13 && p[i].rank.Ord() == i % 13;
      assert p[j].suit.Ord() == j / 13 && p[j].rank.Ord() == j % 13;
    }
    var k := 13 * c.suit.Ord() + c.rank.Ord();
    EnumeratorsRoundTrip(c.suit, c.rank);
    assert p[k] == c;
    DistinctCount(p, c);
  }

  /** numPacks packs hold every card exactly numPacks times (a number below one
      gives the empty deck). */
  lemma {:induction false} PacksCount(numPacks: int, c: Card)
    ensures multiset(Packs(numPacks))[c] == if numPacks <= 0 then 0 else numPacks
  {
    if numPacks > 0 {
      PacksCount(numPacks - 1, c);
      PackOnce(c);
      var a, p := Packs(numPacks - 1), Pack();
      assert Packs(numPacks) == a + p;
      assert multiset(a + p) == multiset(a) + multiset(p);
    }
  }
}
