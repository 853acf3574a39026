// Rank bookkeeping shared by the engine and the ladder invariant: the
// multiset of ranks a list of entries holds, and the multiset
// {0, ..., n-1} that a well-formed ladder of n entries must hold.
module Ranking {
  import opened Records

  /** The ranks held by a list of entries, with repetition. */
  function RankBag(c: seq<Ladder>): (m: multiset<int>)
    ensures |m| == |c|
  {
    if c == [] then multiset{} else multiset{c[0].rank} + RankBag(c[1..])
  }

  /** The ranks 0, ..., n-1, each once. */
  function Interval(n: nat): (m: multiset<int>)
    ensures |m| == n
    ensures forall v :: v in m <==> 0 <= v < n
    ensures forall v :: m[v] <= 1
  {
    if n == 0 then multiset{} else Interval(n - 1) + multiset{n - 1}
  }

  lemma {:induction false} RankBagConcat(a: seq<Ladder>, b: seq<Ladder>)
    ensures RankBag(a + b) == RankBag(a) + RankBag(b)
  {
    if a == [] {
      assert a + b == b;
    } else {
      assert (a + b)[0] == a[0];
      assert (a + b)[1..] == a[1..] + b;
      RankBagConcat(a[1..], b);
    }
  }

  /** A rank is in the bag exactly when some entry holds it. */
  lemma {:induction false} RankBagMembers(c: seq<Ladder>)
    ensures forall v :: v in RankBag(c) <==> exists i :: 0 <= i < |c| && c[i].rank == v
  {
    if c != [] {
      RankBagMembers(c[1..]);
      assert RankBag(c) == multiset{c[0].rank} + RankBag(c[1..]);
      forall v | v in RankBag(c) ensures exists i :: 0 <= i < |c| && c[i].rank == v {
        if v != c[0].rank {
          var i :| 0 <= i < |c[1..]| && c[1..][i].rank == v;
          assert c[i + 1].rank == v;
        }
      }
      forall v, i | 0 <= i < |c| && c[i].rank == v ensures v in RankBag(c) {
        if i > 0 {
          assert c[1..][i - 1].rank == v;
        }
      }
    }
  }

  /** Entries with pairwise distinct ranks hold each rank at most once. */
  lemma {:induction false} RankBagDistinct(c: seq<Ladder>)
    requires forall i, j :: 0 <= i < j < |c| ==> c[i].rank != c[j].rank
    ensures forall v :: RankBag(c)[v] <= 1
  {
    if c != [] {
      RankBagDistinct(c[1..]);
      RankBagMembers(c[1..]);
      forall i | 0 <= i < |c[1..]| ensures c[1..][i].rank != c[0].rank {
        assert c[1..][i] == c[i + 1];
      }
    }
  }

  lemma RankBagMiddle(p: seq<Ladder>, x: Ladder, q: seq<Ladder>)
    ensures RankBag(p + [x] + q) == multiset{x.rank} + RankBag(p + q)
  {
    RankBagConcat(p + [x], q);
    RankBagConcat(p, [x]);
    RankBagConcat(p, q);
    assert RankBag([x]) == multiset{x.rank};
  }

  /** Taking entry i out of a list takes one copy of its rank out of the
      rank bag. */
  lemma RankBagRemoveAt(b: seq<Ladder>, i: int)
    requires 0 <= i < |b|
    ensures RankBag(b) == multiset{b[i].rank} + RankBag(b[..i] + b[i + 1..])
  {
    var p, r, q := b[..i], b[i..], b[i + 1..];
    assert b == p + r;
    RankBagConcat(p, r);
    assert r[0] == b[i] && r[1..] == q;
    assert RankBag(r) == multiset{b[i].rank} + RankBag(q);
    RankBagConcat(p, q);
  }

  lemma MultisetRemoveAt<T>(b: seq<T>, i: int)
    requires 0 <= i < |b|
    ensures multiset(b) == multiset{b[i]} + multiset(b[..i] + b[i + 1..])
  {
    var p, x, q := b[..i], b[i], b[i + 1..];
    assert b == p + [x] + q;
  }

  lemma Cancel<T>(x: T, p: multiset<T>, q: multiset<T>)
    requires multiset{x} + p == multiset{x} + q
    ensures p == q
  {
    assert p == multiset{x} + p - multiset{x};
    assert q == multiset{x} + q - multiset{x};
  }

  /** Reordering entries does not change the ranks they hold. */
  lemma {:induction false} PermutationRanks(a: seq<Ladder>, b: seq<Ladder>)
    requires multiset(a) == multiset(b)
    ensures RankBag(a) == RankBag(b)
    decreases |a|
  {
    if a != [] {
      assert a[0] in multiset(b);
      var i :| 0 <= i < |b| && b[i] == a[0];
      RankBagRemoveAt(b, i);
      MultisetRemoveAt(b, i);
      assert a == [a[0]] + a[1..];
      assert multiset(a) == multiset{a[0]} + multiset(a[1..]);
      Cancel(a[0], multiset(a[1..]), multiset(b[..i] + b[i + 1..]));
      PermutationRanks(a[1..], b[..i] + b[i + 1..]);
    }
  }

  /** A set of ranks below n has at most n members, and has exactly n only
      when it is all of 0, ..., n-1. */
  lemma {:induction false} FullInterval(m: multiset<int>, n: nat)
    requires forall v :: v in m ==> 0 <= v < n
    requires forall v :: m[v] <= 1
    ensures |m| <= n
    ensures |m| == n ==> m == Interval(n)
  {
    if n == 0 {
      assert forall v :: v !in m;
      assert m == multiset{};
    } else {
      var rest := m - multiset{n - 1};
      assert forall v :: v in rest ==> v in m && v != n - 1;
      FullInterval(rest, n - 1);
      if n - 1 in m {
        assert m == rest + multiset{n - 1};
      } else {
        assert rest == m;
      }
    }
  }

  /** Entries with distinct ranks in [0, n) number at most n, and exactly
      n of them hold every rank 0, ..., n-1 once. */
  lemma DistinctRanksBound(c: seq<Ladder>, n: nat)
    requires forall i :: 0 <= i < |c| ==> 0 <= c[i].rank < n
    requires forall i, j :: 0 <= i < j < |c| ==> c[i].rank != c[j].rank
    ensures |c| <= n
    ensures |c| == n ==> RankBag(c) == Interval(n)
  {
    RankBagDistinct(c);
    RankBagMembers(c);
    FullInterval(RankBag(c), n);
  }
}
