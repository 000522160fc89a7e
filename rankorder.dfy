/** Ordering of cards by rank, as customSort establishes it: non-decreasing
    ranks, with cards of equal rank kept in their original relative order.
    RankSort is a reference definition of that order (a stable insertion
    sort); StableSortUnique shows that the order determines the result. */
module RankOrder {
  import opened Cards

  /** Ranks never decrease along s. */
  predicate SortedByRank(s: seq<Card>)
  {
    forall i, j :: 0 <= i < j < |s| ==> s[i].rank.Ord() <= s[j].rank.Ord()
  }

  /** The cards of s that have rank r, in their order in s. */
  function OfRank(s: seq<Card>, r: Rank): (t: seq<Card>)
    ensures |t| <= |s|
  {
    if s == [] then [] else (if s[0].rank == r then [s[0]] else []) + OfRank(s[1..], r)
  }

  /** s and t hold the same cards of each rank in the same relative order:
      a stable rearrangement by rank. */
  ghost predicate SameRankOrder(s: seq<Card>, t: seq<Card>)
  {
    forall r: Rank :: OfRank(s, r) == OfRank(t, r)
  }

  /** OfRank of a card followed by a sequence. */
  lemma OfRankCons(x: Card, s: seq<Card>, r: Rank)
    ensures OfRank([x] + s, r) == (if x.rank == r then [x] else []) + OfRank(s, r)
  {
    assert ([x] + s)[1..] == s;
  }

  lemma {:induction false} OfRankConcat(a: seq<Card>, b: seq<Card>, r: Rank)
    ensures OfRank(a + b, r) == OfRank(a, r) + OfRank(b, r)
  {
    if a == [] {
      assert a + b == b;
    } else {
      var x, a' := a[0], a[1..];
      assert a == [x] + a';
      assert a + b == [x] + (a' + b);
      OfRankCons(x, a', r);
      OfRankCons(x, a' + b, r);
      OfRankConcat(a', b, r);
    }
  }

  lemma {:induction false} OfRankAbsent(s: seq<Card>, r: Rank)
    requires forall i :: 0 <= i < |s| ==> s[i].rank != r
    ensures OfRank(s, r) == []
  {
    if s != [] {
      OfRankAbsent(s[1..], r);
    }
  }

  lemma OfRankLeading(s: seq<Card>)
    ensures s != [] ==> OfRank(s, s[0].rank) != []
  {
  }

  lemma OfRankOne(c: Card, r: Rank)
    ensures OfRank([c], r) == if c.rank == r then [c] else []
  {
    assert [c][1..] == [];
  }

  /** Exchanging two neighbours of different rank (the only exchange customSort
      makes) keeps every rank's cards in order. */
  lemma SwapUnequalRanks(s: seq<Card>, j: int)
    requires 0 <= j && j + 1 < |s| && s[j].rank != s[j + 1].rank
    ensures SameRankOrder(Swap(s, j, j + 1), s)
  {
    var x, y := s[j], s[j + 1];
    var pre, post := s[..j], s[j + 2..];
    var t := Swap(s, j, j + 1);
    assert s == pre + ([x] + ([y] + post));
    assert t == pre + ([y] + ([x] + post));
    forall r: Rank
      ensures OfRank(t, r) == OfRank(s, r)
    {
      OfRankExchange(pre, x, y, post, r);
    }
  }

  /** The cards of rank r do not see two neighbours of different rank change
      places. */
  lemma OfRankExchange(pre: seq<Card>, x: Card, y: Card, post: seq<Card>, r: Rank)
    requires x.rank != y.rank
    ensures OfRank(pre + ([y] + ([x] + post)), r) == OfRank(pre + ([x] + ([y] + post)), r)
  {
    OfRankPair(x, y, post, r);
    OfRankConcat(pre, [x] + ([y] + post), r);
    OfRankConcat(pre, [y] + ([x] + post), r);
  }

  /** Two cards of different rank in front of post may change places. */
  lemma OfRankPair(x: Card, y: Card, post: seq<Card>, r: Rank)
    requires x.rank != y.rank
    ensures OfRank([y] + ([x] + post), r) == OfRank([x] + ([y] + post), r)
  {
    var p := OfRank(post, r);
    OfRankCons(x, [y] + post, r);
    OfRankCons(y, post, r);
    OfRankCons(y, [x] + post, r);
    OfRankCons(x, post, r);
    if x.rank == r {
      assert OfRank([y] + ([x] + post), r) == [x] + p;
    } else if y.rank == r {
      assert OfRank([x] + ([y] + post), r) == [y] + p;
    }
  }

  /** Inserts c after every card whose rank is at most c's. */
  function InsertByRank(c: Card, t: seq<Card>): (u: seq<Card>)
    ensures |u| == |t| + 1
    ensures multiset(u) == multiset(t) + multiset{c}
  {
    if t == [] || t[|t| - 1].rank.Ord() <= c.rank.Ord() then t + [c]
    else
      var last := t[|t| - 1];
      assert t == t[..|t| - 1] + [last];
      InsertByRank(c, t[..|t| - 1]) + [last]
  }

  /** Reference definition of the order customSort produces. */
  function RankSort(s: seq<Card>): (r: seq<Card>)
    ensures |r| == |s|
  {
    if s == [] then [] else InsertByRank(s[|s| - 1], RankSort(s[..|s| - 1]))
  }

  lemma {:induction false} InsertSorted(c: Card, t: seq<Card>)
    requires SortedByRank(t)
    ensures SortedByRank(InsertByRank(c, t))
  {
    if t == [] || t[|t| - 1].rank.Ord() <= c.rank.Ord() {
    } else {
      var t', last := t[..|t| - 1], t[|t| - 1];
      InsertSorted(c, t');
      var u' := InsertByRank(c, t');
      forall x | x in u'
        ensures x.rank.Ord() <= last.rank.Ord()
      {
        assert x in multiset(u');
      }
    }
  }

  /** Appending a card whose rank differs from c's to both sides keeps c's
      place at the end of its rank's cards. */
  lemma OfRankAppend(u: seq<Card>, t: seq<Card>, c: Card, last: Card, r: Rank)
    requires OfRank(u, r) == OfRank(t, r) + (if c.rank == r then [c] else [])
    requires last.rank != c.rank
    ensures OfRank(u + [last], r) == OfRank(t + [last], r) + (if c.rank == r then [c] else [])
  {
    OfRankConcat(u, [last], r);
    OfRankConcat(t, [last], r);
    OfRankOne(last, r);
  }

  lemma {:induction false} InsertOfRank(c: Card, t: seq<Card>, r: Rank)
    ensures OfRank(InsertByRank(c, t), r) == OfRank(t, r) + (if c.rank == r then [c] else [])
  {
    if t == [] || t[|t| - 1].rank.Ord() <= c.rank.Ord() {
      OfRankOne(c, r);
      OfRankConcat(t, [c], r);
    } else {
      var t', last := t[..|t| - 1], t[|t| - 1];
      assert t == t' + [last];
      assert InsertByRank(c, t) == InsertByRank(c, t') + [last];
      InsertOfRank(c, t', r);
      OfRankAppend(InsertByRank(c, t'), t', c, last, r);
    }
  }

  /** RankSort is a stable sort by rank: sorted, a permutation, and each
      rank's cards keep their relative order. */
  lemma {:induction false} RankSortCorrect(s: seq<Card>)
    ensures SortedByRank(RankSort(s))
    ensures multiset(RankSort(s)) == multiset(s)
    ensures SameRankOrder(RankSort(s), s)
  {
    if s != [] {
      var s', last := s[..|s| - 1], s[|s| - 1];
      assert s == s' + [last];
      RankSortCorrect(s');
      InsertSorted(last, RankSort(s'));
      forall r: Rank
        ensures OfRank(RankSort(s), r) == OfRank(s, r)
      {
        InsertOfRank(last, RankSort(s'), r);
        OfRankConcat(s', [last], r);
      }
    }
  }

  /** A sequence sorted by rank is determined by its cards of each rank in
      order: two such sequences with the same rank order are equal. */
  lemma {:induction false} StableSortUnique(s: seq<Card>, t: seq<Card>)
    requires SortedByRank(s) && SortedByRank(t) && SameRankOrder(s, t)
    ensures s == t
    decreases |s|
  {
    if s == [] || t == [] {
      OfRankLeading(s);
      OfRankLeading(t);

    } else {
      var a, b := s[0], t[0];
      if a.rank.Ord() < b.rank.Ord() {
        OfRankAbsent(t, a.rank);
      } else if b.rank.Ord() < a.rank.Ord() {
        OfRankAbsent(s, b.rank);
      } else {
        EnumeratorsRoundTrip(a.suit, a.rank);
        EnumeratorsRoundTrip(b.suit, b.rank);
        assert a.rank == b.rank;
        assert OfRank(s, a.rank) == [a] + OfRank(s[1..], a.rank);
        assert OfRank(t, a.rank) == [b] + OfRank(t[1..], a.rank);
        assert OfRank(s, a.rank) == OfRank(t, a.rank);
        assert OfRank(s, a.rank)[0] == a && OfRank(t, a.rank)[0] == b;
        forall r: Rank
          ensures OfRank(s[1..], r) == OfRank(t[1..], r)
        {
          if r == a.rank {
            assert [a] + OfRank(s[1..], r) == [b] + OfRank(t[1..], r);
            assert OfRank(s[1..], r) == ([a] + OfRank(s[1..], r))[1..];
          } else {
            assert OfRank(s, r) == OfRank(s[1..], r);
            assert OfRank(t, r) == OfRank(t[1..], r);
          }
        }
        StableSortUnique(s[1..], t[1..]);
        assert s == [a] + s[1..] && t == [b] + t[1..];
      }
    }
  }
}
