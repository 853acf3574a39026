// The ladder invariant on the sqlite backend: within one channel the n
// rows hold the ranks 0, ..., n-1, each once. The handlers of commands.go
// run here against `SqliteDb`, and each rank-changing handler is shown to
// keep (or, for leave and shuffle, to establish) the invariant.
module Contiguity {
  import opened Records
  import opened Store
  import opened Sqlite
  import opened Ranking
  import opened Commands

  /** The channel's n rows hold the ranks 0, ..., n-1, each once: rank 0
      is the top, and there are no gaps and no ties. */
  predicate Contiguous(t: Table, channelId: string) {
    RankBag(ChannelRows(t, channelId)) == Interval(Count(t, channelId))
  }

  /** On a contiguous ladder every row of the channel has a rank in [0, n). */
  lemma ContiguousRanks(t: Table, channelId: string)
    requires Contiguous(t, channelId)
    ensures forall x :: x in t && x.channelId == channelId ==> 0 <= x.rank < Count(t, channelId)
  {
    var c := ChannelRows(t, channelId);
    RankBagMembers(c);
    forall x | x in t && x.channelId == channelId
      ensures 0 <= x.rank < Count(t, channelId)
    {
      var j :| 0 <= j < |c| && c[j] == x;
      assert x.rank in RankBag(c);
    }
  }

  /** On a contiguous ladder every rank in [0, n) is held by a row of the
      channel. */
  lemma RankHeld(t: Table, channelId: string, v: int)
    requires Contiguous(t, channelId) && 0 <= v < Count(t, channelId)
    ensures exists x :: x in t && x.channelId == channelId && x.rank == v
  {
    var c := ChannelRows(t, channelId);
    RankBagMembers(c);
    assert v in RankBag(c);
    var j :| 0 <= j < |c| && c[j].rank == v;
    assert c[j] in c;
  }

  lemma {:induction false} ChannelRowsConcat(a: Table, b: Table, channelId: string)
    ensures ChannelRows(a + b, channelId) == ChannelRows(a, channelId) + ChannelRows(b, channelId)
  {
    if a == [] {
      assert a + b == b;
    } else {
      assert (a + b)[0] == a[0];
      assert (a + b)[1..] == a[1..] + b;
      ChannelRowsConcat(a[1..], b, channelId);
    }
  }

  /** The channel's rows: those before row k, row k if it is in the
      channel, and those after k. */
  lemma ChannelRowsSplit(t: Table, k: int, channelId: string)
    requires 0 <= k < |t|
    ensures ChannelRows(t, channelId) ==
      ChannelRows(t[..k], channelId) + ChannelRows([t[k]], channelId) + ChannelRows(t[k + 1..], channelId)
  {
    assert t == t[..k] + [t[k]] + t[k + 1..];
    ChannelRowsConcat(t[..k] + [t[k]], t[k + 1..], channelId);
    ChannelRowsConcat(t[..k], [t[k]], channelId);
  }

  lemma ChannelRowsSingle(x: Ladder, channelId: string)
    ensures ChannelRows([x], channelId) == if x.channelId == channelId then [x] else []
  {
    assert [x][1..] == [];
  }

  /** Changing row k within its channel replaces one copy of its rank in
      the channel's rank bag. */
  lemma ChannelRowsUpdate(t: Table, k: int, x: Ladder)
    requires 0 <= k < |t| && x.channelId == t[k].channelId
    ensures Count(t[k := x], x.channelId) == Count(t, x.channelId)
    ensures RankBag(ChannelRows(t[k := x], x.channelId)) + multiset{t[k].rank} ==
            RankBag(ChannelRows(t, x.channelId)) + multiset{x.rank}
  {
    var ch, u := x.channelId, t[k := x];
    var p, q := ChannelRows(t[..k], ch), ChannelRows(t[k + 1..], ch);
    ChannelRowsSplit(t, k, ch);
    ChannelRowsSplit(u, k, ch);
    assert u[..k] == t[..k] && u[k + 1..] == t[k + 1..] && u[k] == x;
    ChannelRowsSingle(x, ch);
    ChannelRowsSingle(t[k], ch);
    assert ChannelRows(t, ch) == p + [t[k]] + q;
    assert ChannelRows(u, ch) == p + [x] + q;
    RankBagReplace(p, t[k], x, q);
  }

  lemma RankBagReplace(p: seq<Ladder>, a: Ladder, b: Ladder, q: seq<Ladder>)
    ensures |p + [b] + q| == |p + [a] + q|
    ensures RankBag(p + [b] + q) + multiset{a.rank} == RankBag(p + [a] + q) + multiset{b.rank}
  {
    RankBagMiddle(p, a, q);
    RankBagMiddle(p, b, q);
  }

  /** Changing a row that stays outside the channel leaves the channel's
      rows alone. */
  lemma ChannelRowsElsewhere(t: Table, k: int, x: Ladder, channelId: string)
    requires 0 <= k < |t| && x.channelId == t[k].channelId != channelId
    ensures ChannelRows(t[k := x], channelId) == ChannelRows(t, channelId)
  {
    var u := t[k := x];
    ChannelRowsSplit(t, k, channelId);
    ChannelRowsSplit(u, k, channelId);
    assert u[..k] == t[..k] && u[k + 1..] == t[k + 1..] && u[k] == x;
    ChannelRowsSingle(x, channelId);
    ChannelRowsSingle(t[k], channelId);
  }

  /** A row appended at the end joins the end of its channel's rows. */
  lemma ChannelRowsSnoc(t: Table, x: Ladder, channelId: string)
    ensures ChannelRows(t + [x], channelId) == ChannelRows(t, channelId) + (if x.channelId == channelId then [x] else [])
  {
    ChannelRowsConcat(t, [x], channelId);
    assert [x][1..] == [];
  }

  /** With unique keys, the row a key lookup finds for row m's key is row m. */
  lemma KeyIndexOfRow(t: Table, m: int)
    requires UniqueKeys(t) && 0 <= m < |t|
    ensures KeyIndex(t, t[m].userId, t[m].channelId) == m
  {
    assert HasKey(t[m], t[m].channelId, t[m].userId);
  }

  /** The sqlite writes never fail: a run of upserts through the interface
      is `UpdateAll`. */
  lemma {:induction false} UpsertsNeverFail(getLadders: Table -> Result<seq<string>>, t: Table, ls: seq<Ladder>)
    ensures WriteEach(SqliteDb(getLadders).insertOrUpdate, t, ls) == (UpdateAll(t, ls), Pass)
    decreases |ls|
  {
    if ls != [] {
      UpsertsNeverFail(getLadders, InsertOrUpdate(t, ls[0]), ls[1..]);
    }
  }

  /** On a contiguous ladder the entry above rank r, 0 < r <= n, is the
      one at rank r - 1, and at rank 0 there is none. */
  lemma AboveOnContiguous(t: Table, channelId: string, rank: int)
    requires Contiguous(t, channelId)
    requires 0 <= rank <= Count(t, channelId)
    ensures GetUserAbove(t, channelId, rank).Ok? <==> rank > 0
    ensures rank > 0 ==> GetUserAbove(t, channelId, rank).value.rank == rank - 1
  {
    ContiguousRanks(t, channelId);
    if rank > 0 {
      RankHeld(t, channelId, rank - 1);
      var x :| x in t && x.channelId == channelId && x.rank == rank - 1;
      var i :| 0 <= i < |t| && t[i] == x;
      assert RankedAtMost(t[i], channelId, rank - 1);
    } else {
      forall i | 0 <= i < |t| ensures !RankedAtMost(t[i], channelId, rank - 1) {
        assert t[i] in t;
      }
    }
  }

  /** `challenge` on a contiguous sqlite ladder: the challenger at the top
      gets nothing and no error; anyone else gets the entry exactly one rank
      above; someone not on the ladder gets the not-found error. */
  lemma ChallengeOnContiguous(getLadders: Table -> Result<seq<string>>, t: Table, channelId: string, userId: string)
    requires Contiguous(t, channelId)
    ensures var r := Challenge(SqliteDb(getLadders), t, channelId, userId);
      var found := GetUser(t, userId, channelId);
      && (found.Err? ==> r.Err? && IsNotFound(r.error))
      && (found.Ok? && found.value.rank == 0 ==> r == Ok(None))
      && (found.Ok? && found.value.rank != 0 ==>
            r.Ok? && r.value.Some? && r.value.value.rank == found.value.rank - 1 &&
            r.value.value.channelId == channelId && r.value.value in t)
  {
    var found := GetUser(t, userId, channelId);
    if found.Ok? {
      ContiguousRanks(t, channelId);
      var k := KeyIndex(t, userId, channelId);
      assert t[k] == found.value;
      AboveOnContiguous(t, channelId, found.value.rank);
    }
  }

  lemma ExchangeBags(b: multiset<int>, b1: multiset<int>, b2: multiset<int>, x: int, y: int)
    requires b1 + multiset{x} == b + multiset{y}
    requires b2 + multiset{y} == b1 + multiset{x}
    ensures b2 == b
  {
    assert b2 + multiset{y} == b + multiset{y};
    forall v ensures b2[v] == b[v] {
      assert (b2 + multiset{y})[v] == (b + multiset{y})[v];
    }
  }

  /** Two rows of a channel exchanging their ranks keep it contiguous. */
  lemma SwapKeepsContiguous(t: Table, k: int, m: int, channelId: string)
    requires 0 <= k < |t| && 0 <= m < |t| && k != m
    requires t[k].channelId == channelId && t[m].channelId == channelId
    requires Contiguous(t, channelId)
    ensures Contiguous(t[k := t[k].(rank := t[m].rank)][m := t[m].(rank := t[k].rank)], channelId)
  {
    var up, down := t[k].(rank := t[m].rank), t[m].(rank := t[k].rank);
    var t1 := t[k := up];
    assert t1[m] == t[m];
    var t2 := t1[m := down];
    ChannelRowsUpdate(t, k, up);
    ChannelRowsUpdate(t1, m, down);
    ExchangeBags(RankBag(ChannelRows(t, channelId)), RankBag(ChannelRows(t1, channelId)),
      RankBag(ChannelRows(t2, channelId)), t[k].rank, t[m].rank);
  }

  /** Upserting two existing rows with each other's rank, as `won` does,
      changes those two rows' ranks in place and nothing else. */
  lemma ExchangeWrites(t: Table, k: int, m: int)
    requires Valid(t) && 0 <= k < |t| && 0 <= m < |t| && k != m
    ensures UpdateAll(t, [t[k].(rank := t[m].rank), t[m].(rank := t[k].rank)]) ==
      t[k := t[k].(rank := t[m].rank)][m := t[m].(rank := t[k].rank)]
  {
    var up, down := t[k].(rank := t[m].rank), t[m].(rank := t[k].rank);
    KeyIndexOfRow(t, k);
    var t1 := t[k := up];
    assert InsertOrUpdate(t, up) == t1;
    assert t1[m] == t[m];
    assert UniqueKeys(t1);
    KeyIndexOfRow(t1, m);
    var t2 := t1[m := down];
    assert InsertOrUpdate(t1, down) == t2;
    var pair := [up, down];
    assert pair[1..] == [down] && pair[1..][1..] == [];
    assert UpdateAll(t, pair) == UpdateAll(t1, [down]);
    assert UpdateAll(t1, [down]) == UpdateAll(t2, []);
  }

  /** `won` on a contiguous sqlite ladder, for a winner below the top: the
      entry above is the one at rank r - 1; the two rows exchange ranks and
      every other row is unchanged, so the winner moves up exactly one
      place and the ladder stays contiguous. */
  lemma WonOnContiguous(t: Table, channelId: string, userId: string)
    requires Valid(t) && Contiguous(t, channelId)
    requires GetUser(t, userId, channelId).Ok? && GetUser(t, userId, channelId).value.rank != 0
    ensures var w := GetUser(t, userId, channelId).value;
      GetUserAbove(t, channelId, w.rank).Ok? &&
      var l := GetUserAbove(t, channelId, w.rank).value;
      var k := KeyIndex(t, userId, channelId);
      var m := KeyIndex(t, l.userId, channelId);
      && l.rank == w.rank - 1
      && k < |t| && m < |t| && k != m && t[k] == w && t[m] == l
      && var t2 := UpdateAll(t, [w.(rank := l.rank), l.(rank := w.rank)]);
      && t2 == t[k := w.(rank := w.rank - 1)][m := l.(rank := w.rank)]
      && Valid(t2) && Contiguous(t2, channelId)
  {
    var w := GetUser(t, userId, channelId).value;
    var k := KeyIndex(t, userId, channelId);
    ContiguousRanks(t, channelId);
    AboveOnContiguous(t, channelId, w.rank);
    var l := GetUserAbove(t, channelId, w.rank).value;
    var m :| 0 <= m < |t| && t[m] == l;
    KeyIndexOfRow(t, m);
    ExchangeWrites(t, k, m);
    SwapKeepsContiguous(t, k, m, channelId);
  }

  /** On an empty ladder `getLastUser` finds nobody, so `userJoined`
      returns its not-found error and writes nothing; a first entry cannot
      join this way. */
  lemma JoinEmpty(t: Table, channelId: string)
    requires Count(t, channelId) == 0
    ensures GetLastUser(t, channelId) == Err(NotFoundError("unable to get user below"))
  {
    forall i | 0 <= i < |t| ensures t[i].channelId != channelId {
      assert t[i] in t;
    }
  }

  /** On a contiguous, non-empty ladder the last entry has rank n - 1. */
  lemma LastOnContiguous(t: Table, channelId: string)
    requires Contiguous(t, channelId) && Count(t, channelId) > 0
    ensures GetLastUser(t, channelId).Ok?
    ensures GetLastUser(t, channelId).value.rank == Count(t, channelId) - 1
  {
    ContiguousRanks(t, channelId);
    RankHeld(t, channelId, Count(t, channelId) - 1);
    var x :| x in t && x.channelId == channelId && x.rank == Count(t, channelId) - 1;
    var i :| 0 <= i < |t| && t[i] == x;
  }

  /** A row of the channel appended at rank n keeps it contiguous. */
  lemma AppendKeepsContiguous(t: Table, row: Ladder, channelId: string)
    requires Contiguous(t, channelId) && row.channelId == channelId && row.rank == Count(t, channelId)
    ensures Count(t + [row], channelId) == Count(t, channelId) + 1
    ensures Contiguous(t + [row], channelId)
  {
    ChannelRowsSnoc(t, row, channelId);
    RankBagConcat(ChannelRows(t, channelId), [row]);
    assert RankBag([row]) == multiset{row.rank};
  }

  /** `userJoined` on a contiguous sqlite ladder that does not hold the user
      yet: a new row with a fresh id is appended at rank n, the bottom, and
      the ladder stays contiguous with one entry more. */
  lemma JoinOnContiguous(t: Table, channelId: string, userId: string)
    requires Valid(t) && Contiguous(t, channelId) && Count(t, channelId) > 0
    requires GetUser(t, userId, channelId).Err?
    ensures GetLastUser(t, channelId).Ok?
    ensures var n := Count(t, channelId);
      var t' := InsertOrUpdate(t, Ladder(0, channelId, userId, GetLastUser(t, channelId).value.rank + 1));
      && t' == t + [Ladder(FreshId(t), channelId, userId, n)]
      && Valid(t') && Contiguous(t', channelId) && Count(t', channelId) == n + 1
      && GetUser(t', userId, channelId).Ok? && GetUser(t', userId, channelId).value.rank == n
  {
    var n := Count(t, channelId);
    LastOnContiguous(t, channelId);
    var row := Ladder(FreshId(t), channelId, userId, n);
    assert InsertOrUpdate(t, Ladder(0, channelId, userId, n)) == t + [row];
    AppendKeepsContiguous(t, row, channelId);
  }
}
