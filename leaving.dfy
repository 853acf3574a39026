// `userLeft` against the sqlite backend. On a well-formed table the
// departing user has exactly one row in the channel, that row is removed,
// and the remaining rows are renumbered 0, ..., n-2 in ladder order, so the
// channel ends up contiguous whatever its ranks were before. A user who is
// not on the ladder makes the handler panic.
module Leave {
  import opened Records
  import opened Store
  import opened Sqlite
  import opened Ranking
  import opened Commands
  import opened Contiguity

  /** No two entries are for the same user. */
  predicate DistinctUsers(s: seq<Ladder>) {
    forall i, j :: 0 <= i < j < |s| ==> s[i].userId != s[j].userId
  }

  /** A value at two positions is in the multiset at least twice. */
  lemma Repeated<T>(a: seq<T>, i: int, j: int)
    requires 0 <= i < j < |a| && a[i] == a[j]
    ensures multiset(a)[a[i]] >= 2
  {
    assert a == a[..j] + [a[j]] + a[j + 1..];
    assert a[..j][i] == a[i];
  }

  /** Row ids are distinct, so no row appears twice among a channel's rows. */
  lemma {:induction false} ChannelRowsOnce(t: Table, channelId: string)
    requires DistinctIds(t)
    ensures forall x :: multiset(ChannelRows(t, channelId))[x] <= 1
  {
    if t != [] {
      var rest := t[1..];
      assert DistinctIds(rest) by {
        forall i, j | 0 <= i < j < |rest| ensures rest[i].id != rest[j].id {
          assert rest[i] == t[i + 1] && rest[j] == t[j + 1];
        }
      }
      ChannelRowsOnce(rest, channelId);
      forall y | y in rest ensures y != t[0] {
        var i :| 0 <= i < |rest| && rest[i] == y;
        assert t[i + 1] == y;
      }
      assert t == [t[0]] + rest;
      ChannelRowsCons(t[0], rest);
    }
  }

  /** On a well-formed table the ladder `getLadder` returns has at most one
      entry per user. */
  lemma LadderDistinctUsers(t: Table, channelId: string)
    requires Valid(t)
    ensures DistinctUsers(GetLadder(t, channelId).value)
  {
    var u := GetLadder(t, channelId).value;
    ChannelRowsOnce(t, channelId);
    forall i, j | 0 <= i < j < |u| ensures u[i].userId != u[j].userId {
      if u[i] == u[j] {
        Repeated(u, i, j);
      }
      assert u[i] != u[j];
      assert u[i] in u && u[j] in u;
      var p :| 0 <= p < |t| && t[p] == u[i];
      var q :| 0 <= q < |t| && t[q] == u[j];
    }
  }

  /** Every entry either departs or stays, counted with repetition. */
  lemma {:induction false} LeavingBags(users: seq<Ladder>, userId: string)
    ensures multiset(Staying(users, userId)) + multiset(Departing(users, userId)) == multiset(users)
    decreases |users|
  {
    if users != [] {
      var init := users[..|users| - 1];
      LeavingBags(init, userId);
      assert users == init + [users[|users| - 1]];
    }
  }

  /** When no entry is for the user, nobody departs. */
  lemma {:induction false} NoneDepart(users: seq<Ladder>, userId: string)
    requires forall i :: 0 <= i < |users| ==> users[i].userId != userId
    ensures Departing(users, userId) == []
    decreases |users|
  {
    if users != [] {
      NoneDepart(users[..|users| - 1], userId);
    }
  }

  /** With one entry per user, at most one entry departs. */
  lemma {:induction false} DepartsOnce(users: seq<Ladder>, userId: string)
    requires DistinctUsers(users)
    ensures |Departing(users, userId)| <= 1
    decreases |users|
  {
    if users != [] {
      var init, last := users[..|users| - 1], users[|users| - 1];
      if last.userId == userId {
        NoneDepart(init, userId);
      } else {
        DepartsOnce(init, userId);
      }
    }
  }

  /** Filtering keeps one entry per user. */
  lemma {:induction false} StayingDistinct(users: seq<Ladder>, userId: string)
    requires DistinctUsers(users)
    ensures DistinctUsers(Staying(users, userId))
    decreases |users|
  {
    if users != [] {
      var init, last := users[..|users| - 1], users[|users| - 1];
      StayingDistinct(init, userId);
      LeavingSplits(init, userId);
      var k := Staying(init, userId);
      if last.userId != userId {
        forall y | y in k ensures y.userId != last.userId {
          var i :| 0 <= i < |init| && init[i] == y;
          assert users[i] == y;
        }
        var r := k + [last];
        forall i, j | 0 <= i < j < |r| ensures r[i].userId != r[j].userId {
          if j == |k| {
            assert r[i] in k;
          } else {
            assert r[i] == k[i] && r[j] == k[j];
          }
        }
      }
    }
  }

  /** On a well-formed table that holds the user, the user's row is the one
      entry of the ladder that departs. */
  lemma DepartingIsTheRow(t: Table, channelId: string, userId: string)
    requires Valid(t) && GetUser(t, userId, channelId).Ok?
    ensures Departing(GetLadder(t, channelId).value, userId) == [GetUser(t, userId, channelId).value]
  {
    var users := GetLadder(t, channelId).value;
    var w := GetUser(t, userId, channelId).value;
    var d := Departing(users, userId);
    assert |d| <= 1 by {
      LadderDistinctUsers(t, channelId);
      DepartsOnce(users, userId);
    }
    assert w in d by {
      LeavingSplits(users, userId);
      assert w in t;
    }
    OnlyMember(d, w);
  }

  lemma OnlyMember<T>(d: seq<T>, w: T)
    requires |d| <= 1 && w in d
    ensures d == [w]
  {
  }

  lemma UniqueKeysTail(t: Table)
    requires UniqueKeys(t) && t != []
    ensures UniqueKeys(t[1..])
  {
    var rest := t[1..];
    forall i, j | 0 <= i < j < |rest| && rest[i].channelId == rest[j].channelId
      ensures rest[i].userId != rest[j].userId
    {
      assert rest[i] == t[i + 1] && rest[j] == t[j + 1];
    }
  }

  /** Removing a key that no row has changes nothing. */
  lemma RemoveAbsent(t: Table, w: Ladder)
    requires forall j :: 0 <= j < |t| ==> !HasKey(t[j], w.channelId, w.userId)
    ensures RemoveUser(t, w) == t
  {
    assert KeyIndex(t, w.userId, w.channelId) == |t|;
  }

  /** Removing a key that only row k has removes exactly row k. */
  lemma {:induction false} RemoveTheRow(t: Table, k: int)
    requires UniqueKeys(t) && 0 <= k < |t|
    ensures RemoveUser(t, t[k]) == t[..k] + t[k + 1..]
  {
    var w, rest := t[k], t[1..];
    UniqueKeysTail(t);
    if k == 0 {
      forall j | 0 <= j < |rest| ensures !HasKey(rest[j], w.channelId, w.userId) {
        assert rest[j] == t[j + 1];
      }
      RemoveAbsent(rest, w);
    } else {
      assert !HasKey(t[0], w.channelId, w.userId);
      assert rest[k - 1] == w;
      RemoveTheRow(rest, k - 1);
      SlicesOfTail(t, k);
    }
  }

  lemma SlicesOfTail(t: Table, k: int)
    requires 0 < k < |t|
    ensures t[..k] + t[k + 1..] == [t[0]] + (t[1..][..k - 1] + t[1..][k..])
  {
    var a, b := t[1..][..k - 1], t[1..][k..];
    assert t[..k] == [t[0]] + a;
    assert t[k + 1..] == b;
  }

  /** Rows removed, ranks changed, nothing else: each row of t' is the row
      at the same position of t with its rank possibly changed. */
  predicate SameKeys(t: Table, t': Table) {
    |t'| == |t| && forall i :: 0 <= i < |t| ==> t'[i] == t[i].(rank := t'[i].rank)
  }

  lemma SameKeysTrans(t: Table, t1: Table, t2: Table)
    requires SameKeys(t, t1) && SameKeys(t1, t2)
    ensures SameKeys(t, t2)
  {
  }

  lemma BagStep(f: multiset<int>, k': multiset<int>, t1: multiset<int>, r': multiset<int>, t: multiset<int>, k0: int, r0: int)
    requires f + k' == t1 + r'
    requires t1 + multiset{k0} == t + multiset{r0}
    ensures f + (multiset{k0} + k') == t + (multiset{r0} + r')
  {
    forall v ensures (f + (multiset{k0} + k'))[v] == (t + (multiset{r0} + r'))[v] {
      assert (f + k')[v] == (t1 + r')[v];
      assert (t1 + multiset{k0})[v] == (t + multiset{r0})[v];
    }
  }

  /** The first upsert of `UpdateRanks`: it replaces the rank of the first
      entry's row in place, and the later entries' rows are still there. */
  lemma UpdateRanksStep(t: Table, k: seq<Ladder>, r: seq<Ladder>, channelId: string) returns (m: int)
    requires Valid(t) && |k| == |r| && DistinctUsers(k) && k != []
    requires forall i :: 0 <= i < |k| ==> k[i] in t && k[i].channelId == channelId
    requires forall i :: 0 <= i < |k| ==> r[i] == k[i].(rank := r[i].rank)
    ensures 0 <= m < |t| && t[m] == k[0]
    ensures InsertOrUpdate(t, r[0]) == t[m := r[0]]
    ensures forall i :: 0 <= i < |k[1..]| ==> k[1..][i] in t[m := r[0]] && k[1..][i].channelId == channelId
    ensures forall i :: 0 <= i < |k[1..]| ==> r[1..][i] == k[1..][i].(rank := r[1..][i].rank)
    ensures DistinctUsers(k[1..])
  {
    assert k[0] in t;
    m :| 0 <= m < |t| && t[m] == k[0];
    KeyIndexOfRow(t, m);
    var t1 := t[m := r[0]];
    forall i | 0 <= i < |k[1..]| ensures k[1..][i] in t1 {
      assert k[1..][i] == k[i + 1];
      assert k[i + 1].userId != k[0].userId;
      var p :| 0 <= p < |t| && t[p] == k[i + 1];
      assert p != m && t1[p] == t[p];
    }
    var k', r' := k[1..], r[1..];
    forall i, j | 0 <= i < j < |k'| ensures k'[i].userId != k'[j].userId {
      assert k'[i] == k[i + 1] && k'[j] == k[j + 1];
    }
    forall i | 0 <= i < |k'| ensures r'[i] == k'[i].(rank := r'[i].rank) && k'[i].channelId == channelId {
      assert r'[i] == r[i + 1] && k'[i] == k[i + 1];
    }
  }

  /** Upserting entries whose rows are present, for distinct users of one
      channel, only changes ranks in place. */
  lemma {:induction false} UpdateRanksKeys(t: Table, k: seq<Ladder>, r: seq<Ladder>, channelId: string)
    requires Valid(t) && |k| == |r| && DistinctUsers(k)
    requires forall i :: 0 <= i < |k| ==> k[i] in t && k[i].channelId == channelId
    requires forall i :: 0 <= i < |k| ==> r[i] == k[i].(rank := r[i].rank)
    ensures SameKeys(t, UpdateAll(t, r))
    decreases |k|
  {
    if k != [] {
      var m := UpdateRanksStep(t, k, r, channelId);
      var t1 := t[m := r[0]];
      UpdateRanksKeys(t1, k[1..], r[1..], channelId);
      SameKeysTrans(t, t1, UpdateAll(t1, r[1..]));
    }
  }

  /** Each such upsert replaces the rank of its row in the channel's rank
      bag. */
  lemma {:induction false} UpdateRanksBag(t: Table, k: seq<Ladder>, r: seq<Ladder>, channelId: string)
    requires Valid(t) && |k| == |r| && DistinctUsers(k)
    requires forall i :: 0 <= i < |k| ==> k[i] in t && k[i].channelId == channelId
    requires forall i :: 0 <= i < |k| ==> r[i] == k[i].(rank := r[i].rank)
    ensures RankBag(ChannelRows(UpdateAll(t, r), channelId)) + RankBag(k) ==
            RankBag(ChannelRows(t, channelId)) + RankBag(r)
    decreases |k|
  {
    if k != [] {
      var m := UpdateRanksStep(t, k, r, channelId);
      var t1 := t[m := r[0]];
      ChannelRowsUpdate(t, m, r[0]);
      var k', r' := k[1..], r[1..];
      UpdateRanksBag(t1, k', r', channelId);
      var f := UpdateAll(t1, r');
      assert RankBag(k) == multiset{k[0].rank} + RankBag(k');
      assert RankBag(r) == multiset{r[0].rank} + RankBag(r');
      BagStep(RankBag(ChannelRows(f, channelId)), RankBag(k'), RankBag(ChannelRows(t1, channelId)), RankBag(r'),
        RankBag(ChannelRows(t, channelId)), k[0].rank, r[0].rank);
    }
  }

  /** Upserting entries whose rows are present, for distinct users of one
      channel, only changes ranks in place, keeps the channel's size, and
      each entry replaces the rank of its row in the channel's rank bag. */
  lemma UpdateRanks(t: Table, k: seq<Ladder>, r: seq<Ladder>, channelId: string)
    requires Valid(t) && |k| == |r| && DistinctUsers(k)
    requires forall i :: 0 <= i < |k| ==> k[i] in t && k[i].channelId == channelId
    requires forall i :: 0 <= i < |k| ==> r[i] == k[i].(rank := r[i].rank)
    ensures SameKeys(t, UpdateAll(t, r))
    ensures Count(UpdateAll(t, r), channelId) == Count(t, channelId)
    ensures RankBag(ChannelRows(UpdateAll(t, r), channelId)) + RankBag(k) ==
            RankBag(ChannelRows(t, channelId)) + RankBag(r)
  {
    UpdateRanksKeys(t, k, r, channelId);
    UpdateRanksBag(t, k, r, channelId);
    var f := UpdateAll(t, r);
    assert |RankBag(ChannelRows(f, channelId)) + RankBag(k)| == |RankBag(ChannelRows(t, channelId)) + RankBag(r)|;
  }

  /** Renumbered entries hold the ranks 0, ..., n-1. */
  lemma RenumberedRanks(ls: seq<Ladder>)
    ensures RankBag(Renumbered(ls)) == Interval(|ls|)
  {
    DistinctRanksBound(Renumbered(ls), |ls|);
  }

  /** Taking a row out keeps a table well formed. */
  lemma ValidWithout(t: Table, k: int)
    requires Valid(t) && 0 <= k < |t|
    ensures Valid(t[..k] + t[k + 1..])
  {
    var u := t[..k] + t[k + 1..];
    assert forall i :: 0 <= i < |u| ==> u[i] == t[if i < k then i else i + 1];
  }

  /** `userLeft` on a well-formed sqlite table that holds the user: the
      user's row is removed, then every other entry of the ladder is
      upserted with its position among them as its rank; nothing fails. */
  lemma LeavingOnSqlite(getLadders: Table -> Result<seq<string>>, t: Table, channelId: string, userId: string)
    requires Valid(t) && GetUser(t, userId, channelId).Ok?
    ensures var w := GetUser(t, userId, channelId).value;
      var users := GetLadder(t, channelId).value;
      Leaving(SqliteDb(getLadders), t, channelId, userId) ==
        (UpdateAll(RemoveUser(t, w), Renumbered(Staying(users, userId))), Returned(Pass))
  {
    var w := GetUser(t, userId, channelId).value;
    var users := GetLadder(t, channelId).value;
    DepartingIsTheRow(t, channelId, userId);
    LeavingSplits(users, userId);
    assert w in users;
    assert [w][1..] == [];
    assert WriteEach(SqliteDb(getLadders).removeUser, t, [w]) == (RemoveUser(t, w), Pass);
    var k := Staying(users, userId);
    assert Compacted(users, userId) == Renumbered(k);
  }

  lemma CancelBag<T>(f: multiset<T>, a: multiset<T>, g: multiset<T>)
    requires f + a == a + g
    ensures f == g
  {
    forall v ensures f[v] == g[v] {
      assert (f + a)[v] == (a + g)[v];
    }
  }

  /** Removing row k takes it out of its channel's rows. */
  lemma RemovedChannelRows(t: Table, k: int)
    requires UniqueKeys(t) && 0 <= k < |t|
    ensures multiset(ChannelRows(RemoveUser(t, t[k]), t[k].channelId)) + multiset{t[k]} ==
      multiset(ChannelRows(t, t[k].channelId))
    ensures Count(RemoveUser(t, t[k]), t[k].channelId) + 1 == Count(t, t[k].channelId)
  {
    var w, ch := t[k], t[k].channelId;
    var u := t[..k] + t[k + 1..];
    var p, q := ChannelRows(t[..k], ch), ChannelRows(t[k + 1..], ch);
    assert RemoveUser(t, w) == u by { RemoveTheRow(t, k); }
    assert ChannelRows(u, ch) == p + q by { ChannelRowsConcat(t[..k], t[k + 1..], ch); }
    assert ChannelRows(t, ch) == p + [w] + q by {
      ChannelRowsSplit(t, k, ch);
      ChannelRowsSingle(w, ch);
    }
    BagMiddle(p, w, q);
  }

  lemma BagMiddle<T>(p: seq<T>, x: T, q: seq<T>)
    ensures multiset(p + q) + multiset{x} == multiset(p + [x] + q)
  {
  }

  /** The channel's rows once the user's row is removed: one row fewer,
      and as a multiset the entries of the ladder that stay. */
  lemma RemovedRows(t: Table, channelId: string, userId: string)
    requires Valid(t) && GetUser(t, userId, channelId).Ok?
    ensures var t1 := RemoveUser(t, GetUser(t, userId, channelId).value);
      && Valid(t1)
      && Count(t1, channelId) == Count(t, channelId) - 1
      && multiset(ChannelRows(t1, channelId)) == multiset(Staying(GetLadder(t, channelId).value, userId))
      && forall x :: x in t1 ==> !HasKey(x, channelId, userId)
  {
    var w := GetUser(t, userId, channelId).value;
    var users := GetLadder(t, channelId).value;
    var k := KeyIndex(t, userId, channelId);
    var t1 := RemoveUser(t, w);
    assert Valid(t1) by {
      RemoveTheRow(t, k);
      ValidWithout(t, k);
    }
    var a, b := multiset(ChannelRows(t1, channelId)), multiset(Staying(users, userId));
    assert a + multiset{w} == multiset(ChannelRows(t, channelId)) by { RemovedChannelRows(t, k); }
    assert Count(t1, channelId) + 1 == Count(t, channelId) by { RemovedChannelRows(t, k); }
    assert multiset(ChannelRows(t, channelId)) == multiset{w} + b by {
      DepartingIsTheRow(t, channelId, userId);
      LeavingBags(users, userId);
    }
    CancelBag(a, multiset{w}, b);
  }

  /** The entries that stay are the rows of the channel left after the
      removal. */
  lemma StayingAreRows(t: Table, channelId: string, userId: string)
    requires Valid(t) && GetUser(t, userId, channelId).Ok?
    ensures var t1 := RemoveUser(t, GetUser(t, userId, channelId).value);
      var k := Staying(GetLadder(t, channelId).value, userId);
      forall i :: 0 <= i < |k| ==> k[i] in t1 && k[i].channelId == channelId
  {
    var t1 := RemoveUser(t, GetUser(t, userId, channelId).value);
    var k := Staying(GetLadder(t, channelId).value, userId);
    RemovedRows(t, channelId, userId);
    forall i | 0 <= i < |k| ensures k[i] in t1 && k[i].channelId == channelId {
      assert k[i] in multiset(k);
      assert k[i] in ChannelRows(t1, channelId);
    }
  }

  /** `userLeft` on a well-formed sqlite table that holds the user leaves
      the channel contiguous, with one entry fewer and none for the user;
      the ranks before do not matter. */
  lemma LeftContiguous(t: Table, channelId: string, userId: string)
    requires Valid(t) && GetUser(t, userId, channelId).Ok?
    ensures var w := GetUser(t, userId, channelId).value;
      var users := GetLadder(t, channelId).value;
      var t2 := UpdateAll(RemoveUser(t, w), Renumbered(Staying(users, userId)));
      && Valid(t2) && Contiguous(t2, channelId)
      && Count(t2, channelId) == Count(t, channelId) - 1
      && GetUser(t2, userId, channelId).Err?
  {
    var w := GetUser(t, userId, channelId).value;
    var users := GetLadder(t, channelId).value;
    var t1 := RemoveUser(t, w);
    var k := Staying(users, userId);
    var r := Renumbered(k);
    RemovedRows(t, channelId, userId);
    StayingAreRows(t, channelId, userId);
    LadderDistinctUsers(t, channelId);
    StayingDistinct(users, userId);
    UpdateRanks(t1, k, r, channelId);
    var c1 := ChannelRows(t1, channelId);
    PermutationRanks(c1, k);
    RenumberedRanks(k);
    var t2 := UpdateAll(t1, r);
    CancelBag(RankBag(ChannelRows(t2, channelId)), RankBag(k), Interval(|k|));
    assert |multiset(c1)| == |multiset(k)|;
    forall i | 0 <= i < |t2| ensures !HasKey(t2[i], channelId, userId) {
      assert t1[i] in t1;
    }
  }

  /** Removing one key's rows leaves every other channel's rows alone. */
  lemma {:induction false} RemoveElsewhere(t: Table, l: Ladder, c: string)
    requires c != l.channelId
    ensures ChannelRows(RemoveUser(t, l), c) == ChannelRows(t, c)
    decreases |t|
  {
    if t != [] {
      RemoveElsewhere(t[1..], l, c);
      ChannelRowsCons(t[0], t[1..]);
      assert t == [t[0]] + t[1..];
      if !HasKey(t[0], l.channelId, l.userId) {
        ChannelRowsCons(t[0], RemoveUser(t[1..], l));
      }
    }
  }

  /** Upserting entries whose rows are present, for distinct users of one
      channel, leaves every other channel's rows alone. */
  lemma {:induction false} UpdateRanksElsewhere(t: Table, k: seq<Ladder>, r: seq<Ladder>, channelId: string, c: string)
    requires Valid(t) && |k| == |r| && DistinctUsers(k) && c != channelId
    requires forall i :: 0 <= i < |k| ==> k[i] in t && k[i].channelId == channelId
    requires forall i :: 0 <= i < |k| ==> r[i] == k[i].(rank := r[i].rank)
    ensures ChannelRows(UpdateAll(t, r), c) == ChannelRows(t, c)
    decreases |k|
  {
    if k != [] {
      var m := UpdateRanksStep(t, k, r, channelId);
      ChannelRowsElsewhere(t, m, r[0], c);
      UpdateRanksElsewhere(t[m := r[0]], k[1..], r[1..], channelId, c);
    }
  }

  /** Upserting entries whose rows are present, for distinct users of one
      channel: the row of each entry takes that entry's rank, and every
      other row is kept as it was, in place. */
  lemma {:induction false} UpdateRanksRows(t: Table, k: seq<Ladder>, r: seq<Ladder>, channelId: string)
    requires Valid(t) && |k| == |r| && DistinctUsers(k)
    requires forall i :: 0 <= i < |k| ==> k[i] in t && k[i].channelId == channelId
    requires forall i :: 0 <= i < |k| ==> r[i] == k[i].(rank := r[i].rank)
    ensures |UpdateAll(t, r)| == |t|
    ensures forall i, p :: 0 <= i < |k| && 0 <= p < |t| && t[p] == k[i] ==> UpdateAll(t, r)[p] == r[i]
    ensures forall p :: 0 <= p < |t| && (forall i :: 0 <= i < |k| ==> t[p] != k[i]) ==> UpdateAll(t, r)[p] == t[p]
    decreases |k|
  {
    if k != [] {
      var m := UpdateRanksStep(t, k, r, channelId);
      var t1 := t[m := r[0]];
      var k', r' := k[1..], r[1..];
      UpdateRanksRows(t1, k', r', channelId);
      var f := UpdateAll(t1, r');
      forall i, p | 0 <= i < |k| && 0 <= p < |t| && t[p] == k[i] ensures f[p] == r[i] {
        if i == 0 {
          assert p == m;
          forall j | 0 <= j < |k'| ensures t1[m] != k'[j] {
            assert k'[j] == k[j + 1];
          }
        } else {
          assert k[i].userId != k[0].userId;
          assert t1[p] == k'[i - 1];
        }
      }
      forall p | 0 <= p < |t| && (forall i :: 0 <= i < |k| ==> t[p] != k[i]) ensures f[p] == t[p] {
        forall j | 0 <= j < |k'| ensures t1[p] != k'[j] {
          assert k'[j] == k[j + 1];
        }
      }
    }
  }

  /** `userLeft` on a well-formed sqlite table that holds the user leaves
      every other channel's rows as they were. */
  lemma LeftElsewhere(t: Table, channelId: string, userId: string)
    requires Valid(t) && GetUser(t, userId, channelId).Ok?
    ensures var w := GetUser(t, userId, channelId).value;
      var users := GetLadder(t, channelId).value;
      var t2 := UpdateAll(RemoveUser(t, w), Renumbered(Staying(users, userId)));
      forall c :: c != channelId ==> ChannelRows(t2, c) == ChannelRows(t, c)
  {
    var w := GetUser(t, userId, channelId).value;
    var users := GetLadder(t, channelId).value;
    var t1 := RemoveUser(t, w);
    var k := Staying(users, userId);
    StayingRows(t, channelId, userId, w, t1, k);
    forall c | c != channelId ensures ChannelRows(UpdateAll(t1, Renumbered(k)), c) == ChannelRows(t, c) {
      RemoveElsewhere(t, w, c);
      UpdateRanksElsewhere(t1, k, Renumbered(k), channelId, c);
    }
  }

  /** What `userLeft` upserts after the removal: entries for distinct
      users, each a row of the channel that is still in the table. */
  lemma StayingRows(t: Table, channelId: string, userId: string, w: Ladder, t1: Table, k: seq<Ladder>)
    requires Valid(t) && GetUser(t, userId, channelId).Ok?
    requires w == GetUser(t, userId, channelId).value && t1 == RemoveUser(t, w)
    requires k == Staying(GetLadder(t, channelId).value, userId)
    ensures Valid(t1) && DistinctUsers(k)
    ensures forall i :: 0 <= i < |k| ==> k[i] in t1 && k[i].channelId == channelId
  {
    RemovedRows(t, channelId, userId);
    StayingAreRows(t, channelId, userId);
    LadderDistinctUsers(t, channelId);
    StayingDistinct(GetLadder(t, channelId).value, userId);
  }

  /** Upserting present rows of distinct users of one channel with their
      positions as ranks: `getUser` then finds each user's row ranked by
      that position. */
  lemma RenumberedRows(t: Table, k: seq<Ladder>, channelId: string)
    requires Valid(t) && DistinctUsers(k)
    requires forall i :: 0 <= i < |k| ==> k[i] in t && k[i].channelId == channelId
    ensures forall j :: 0 <= j < |k| ==> GetUser(UpdateAll(t, Renumbered(k)), k[j].userId, channelId) == Ok(k[j].(rank := j))
  {
    var r := Renumbered(k);
    UpdateRanksRows(t, k, r, channelId);
    var t2 := UpdateAll(t, r);
    forall j | 0 <= j < |k| ensures GetUser(t2, k[j].userId, channelId) == Ok(k[j].(rank := j)) {
      var p :| 0 <= p < |t| && t[p] == k[j];
      assert t2[p] == r[j];
      KeyIndexOfRow(t2, p);
    }
  }

  /** `userLeft` on a well-formed sqlite table that holds the user: each
      user who stays keeps their row, now ranked by their position among
      those who stay, so their relative order is the ladder's. */
  lemma LeftRanks(t: Table, channelId: string, userId: string)
    requires Valid(t) && GetUser(t, userId, channelId).Ok?
    ensures var w := GetUser(t, userId, channelId).value;
      var st := Staying(GetLadder(t, channelId).value, userId);
      var t2 := UpdateAll(RemoveUser(t, w), Renumbered(st));
      forall j :: 0 <= j < |st| ==> GetUser(t2, st[j].userId, channelId) == Ok(st[j].(rank := j))
  {
    var w := GetUser(t, userId, channelId).value;
    var users := GetLadder(t, channelId).value;
    var t1 := RemoveUser(t, w);
    var k := Staying(users, userId);
    StayingRows(t, channelId, userId, w, t1, k);
    RenumberedRows(t1, k, channelId);
  }

  /** `userLeft` for a user who is not on the sqlite ladder panics: when
      the ladder is empty allocating a slice of length -1 fails, otherwise
      the last entry is written one slot past the end. Nothing is written. */
  lemma LeavingAbsent(getLadders: Table -> Result<seq<string>>, t: Table, channelId: string, userId: string)
    requires GetUser(t, userId, channelId).Err?
    ensures Leaving(SqliteDb(getLadders), t, channelId, userId) ==
      (t, Panicked(if Count(t, channelId) == 0 then MakesliceLen else IndexOutOfRange))
  {
    var users := GetLadder(t, channelId).value;
    forall i | 0 <= i < |users| ensures users[i].userId != userId {
      assert users[i] in users;
      var j :| 0 <= j < |t| && t[j] == users[i];
    }
    NoneDepart(users, userId);
    assert |multiset(users)| == |multiset(ChannelRows(t, channelId))|;
  }
}
