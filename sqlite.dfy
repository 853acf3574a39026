// The relational backend (sqlite.go). The `ladder` table is an in-memory
// sequence of rows in rowid order; the read queries are filters and sorts
// over it and the writes are functions from the table before to the table
// after. Statements against the in-memory table cannot fail, so the driver
// errors the source wraps are not modelled.
module Sqlite {
  import opened Records
  import opened Store

  type Table = seq<Ladder>

  predicate HasKey(row: Ladder, channelId: string, userId: string) {
    row.channelId == channelId && row.userId == userId
  }

  /** The table's primary key: no two rows share an id. */
  predicate DistinctIds(t: Table) {
    forall i, j :: 0 <= i < j < |t| ==> t[i].id != t[j].id
  }

  /** At most one row per (channel, user). The table declares no such
      constraint; `InsertOrUpdate` keeps it by looking the key up first. */
  predicate UniqueKeys(t: Table) {
    forall i, j :: 0 <= i < j < |t| && t[i].channelId == t[j].channelId ==> t[i].userId != t[j].userId
  }

  predicate Valid(t: Table) {
    DistinctIds(t) && UniqueKeys(t)
  }

  /** Position of the first row, in rowid order, with the given key; |t| if none. */
  function KeyIndex(t: Table, userId: string, channelId: string): (k: nat)
    ensures k <= |t|
    ensures k < |t| ==> HasKey(t[k], channelId, userId)
    ensures forall j :: 0 <= j < k ==> !HasKey(t[j], channelId, userId)
  {
    if t == [] then 0
    else if HasKey(t[0], channelId, userId) then 0
    else 1 + KeyIndex(t[1..], userId, channelId)
  }

  /** `getUser`: the first row with the key, or a wrapped not-found error. */
  function GetUser(t: Table, userId: string, channelId: string): (r: Result<Ladder>)
    ensures r.Ok? <==> exists i :: 0 <= i < |t| && HasKey(t[i], channelId, userId)
    ensures r.Ok? ==> r.value == t[KeyIndex(t, userId, channelId)] && HasKey(r.value, channelId, userId)
    ensures r.Err? ==> r.error == NotFoundError("unable to get user")
  {
    var k := KeyIndex(t, userId, channelId);
    if k < |t| then Ok(t[k]) else Err(NotFoundError("unable to get user"))
  }

  predicate RankedAtMost(row: Ladder, channelId: string, limit: int) {
    row.channelId == channelId && row.rank <= limit
  }

  /** Position of the row that `ORDER BY rank DESC` puts first among the
      channel's rows ranked at most `limit` (ties go to the earliest row);
      |t| if there is none. */
  function AboveIndex(t: Table, channelId: string, limit: int): (k: nat)
    ensures k <= |t|
    ensures k == |t| <==> forall i :: 0 <= i < |t| ==> !RankedAtMost(t[i], channelId, limit)
    ensures k < |t| ==> RankedAtMost(t[k], channelId, limit)
    ensures k < |t| ==> forall i :: 0 <= i < |t| && RankedAtMost(t[i], channelId, limit) ==> t[i].rank <= t[k].rank
  {
    if t == [] then 0
    else
      var k := AboveIndex(t[1..], channelId, limit);
      if RankedAtMost(t[0], channelId, limit) && (k == |t| - 1 || t[0].rank >= t[1 + k].rank) then 0
      else 1 + k
  }

  /** `getUserAbove`: the channel's row with the greatest rank not above
      `rank - 1`, or a wrapped not-found error when there is none. */
  function GetUserAbove(t: Table, channelId: string, rank: int): (r: Result<Ladder>)
    ensures r.Ok? <==> exists i :: 0 <= i < |t| && RankedAtMost(t[i], channelId, rank - 1)
    ensures r.Ok? ==> r.value in t && RankedAtMost(r.value, channelId, rank - 1)
    ensures r.Ok? ==> forall i :: 0 <= i < |t| && RankedAtMost(t[i], channelId, rank - 1) ==> t[i].rank <= r.value.rank
    ensures r.Err? ==> r.error == NotFoundError("unable to get user above")
  {
    var k := AboveIndex(t, channelId, rank - 1);
    if k < |t| then Ok(t[k]) else Err(NotFoundError("unable to get user above"))
  }

  /** The channel's rows, in rowid order. */
  function ChannelRows(t: Table, channelId: string): (c: seq<Ladder>)
    ensures forall x :: x in c <==> x in t && x.channelId == channelId
    ensures |c| <= |t|
  {
    if t == [] then []
    else (if t[0].channelId == channelId then [t[0]] else []) + ChannelRows(t[1..], channelId)
  }

  /** The number of rows of the channel. */
  function Count(t: Table, channelId: string): nat {
    |ChannelRows(t, channelId)|
  }

  /** Places x before the first entry of the sorted s whose rank is not
      smaller, so entries of equal rank keep their order. */
  function InsertByRank(x: Ladder, s: seq<Ladder>): (r: seq<Ladder>)
    ensures multiset(r) == multiset(s) + multiset{x}
    ensures forall y :: y in r <==> y in s || y == x
    ensures SortedByRank(s) ==> SortedByRank(r)
  {
    if s == [] then [x]
    else if x.rank <= s[0].rank then
      if SortedByRank(s) then SortedParts(s); SortedCons(x, s); [x] + s else [x] + s
    else
      assert s == [s[0]] + s[1..];
      var r' := InsertByRank(x, s[1..]);
      if SortedByRank(s) then
        SortedParts(s);
        SortedCons(s[0], r');
        [s[0]] + r'
      else [s[0]] + r'
  }

  /** The head of a sorted list has the least rank and its tail is sorted. */
  lemma SortedParts(s: seq<Ladder>)
    requires SortedByRank(s) && s != []
    ensures forall y :: y in s ==> s[0].rank <= y.rank
    ensures SortedByRank(s[1..])
  {
    forall y | y in s
      ensures s[0].rank <= y.rank
    {
      var p :| 0 <= p < |s| && s[p] == y;
      if p > 0 {
        assert !Less(s, p, 0);
      }
    }
    var t := s[1..];
    forall i, j | 0 <= i < j < |t|
      ensures !Less(t, j, i)
    {
      assert t[i] == s[i + 1] && t[j] == s[j + 1];
      assert !Less(s, j + 1, i + 1);
    }
  }

  /** An entry ranked no lower than every entry of a sorted list can go in front of it. */
  lemma SortedCons(x: Ladder, s: seq<Ladder>)
    requires SortedByRank(s)
    requires forall y :: y in s ==> x.rank <= y.rank
    ensures SortedByRank([x] + s)
  {
    var r := [x] + s;
    forall i, j | 0 <= i < j < |r|
      ensures !Less(r, j, i)
    {
      if i == 0 {
        assert r[j] == s[j - 1];
      } else {
        assert r[i] == s[i - 1] && r[j] == s[j - 1];
        assert !Less(s, j - 1, i - 1);
      }
    }
  }

  /** `ORDER BY rank`: a stable sort by ascending rank. */
  function SortByRank(c: seq<Ladder>): (r: seq<Ladder>)
    ensures multiset(r) == multiset(c) && |r| == |c|
    ensures forall y :: y in r <==> y in c
    ensures SortedByRank(r)
  {
    if c == [] then []
    else
      assert c == [c[0]] + c[1..];
      InsertByRank(c[0], SortByRank(c[1..]))
  }

  /** `getLadder`: exactly the channel's rows, ascending by rank. A channel
      without rows gives an empty list, not an error. */
  function GetLadder(t: Table, channelId: string): (r: Result<seq<Ladder>>)
    ensures r.Ok?
    ensures multiset(r.value) == multiset(ChannelRows(t, channelId))
    ensures forall x :: x in r.value <==> x in t && x.channelId == channelId
    ensures SortedByRank(r.value)
  {
    Ok(SortByRank(ChannelRows(t, channelId)))
  }

  /** `getLastUser`: the last entry of the channel's sorted ladder, or a
      wrapped not-found error when the channel has no rows. (The source also
      forwards an error of `getLadder`, which the in-memory query never
      returns.) */
  function GetLastUser(t: Table, channelId: string): (r: Result<Ladder>)
    ensures r.Ok? <==> exists i :: 0 <= i < |t| && t[i].channelId == channelId
    ensures r.Ok? ==> r.value in t && r.value.channelId == channelId
    ensures r.Ok? ==> forall i :: 0 <= i < |t| && t[i].channelId == channelId ==> t[i].rank <= r.value.rank
    ensures r.Err? ==> r.error == NotFoundError("unable to get user below")
  {
    var l := GetLadder(t, channelId).value;
    if |l| == 0 then
      assert forall i :: 0 <= i < |t| && t[i].channelId == channelId ==> t[i] in l;
      Err(NotFoundError("unable to get user below"))
    else
      SortedLastIsMax(l);
      Ok(l[|l| - 1])
  }

  /** The last entry of a sorted list has the greatest rank. */
  lemma SortedLastIsMax(l: seq<Ladder>)
    requires SortedByRank(l) && |l| > 0
    ensures forall x :: x in l ==> x.rank <= l[|l| - 1].rank
  {
    forall x | x in l
      ensures x.rank <= l[|l| - 1].rank
    {
      var p :| 0 <= p < |l| && l[p] == x;
      if p < |l| - 1 {
        assert !Less(l, |l| - 1, p);
      }
    }
  }

  lemma ChannelRowsCons(x: Ladder, s: Table)
    ensures forall c :: ChannelRows([x] + s, c) == (if x.channelId == c then [x] else []) + ChannelRows(s, c)
  {
    assert ([x] + s)[1..] == s;
  }

  /** `clearLadder`: deletes every row of the channel and no other; it
      succeeds when there is none. */
  function ClearLadder(t: Table, channelId: string): (t': Table)
    ensures forall x :: x in t' <==> x in t && x.channelId != channelId
    ensures forall c :: ChannelRows(t', c) == if c == channelId then [] else ChannelRows(t, c)
    ensures |t'| <= |t|
    ensures Count(t, channelId) == 0 ==> t' == t
  {
    if t == [] then []
    else if t[0].channelId == channelId then ClearLadder(t[1..], channelId)
    else
      var rest := ClearLadder(t[1..], channelId);
      ChannelRowsCons(t[0], rest);
      [t[0]] + rest
  }

  /** Clearing a channel twice is clearing it once. */
  lemma {:induction false} ClearTwice(t: Table, channelId: string)
    ensures ClearLadder(ClearLadder(t, channelId), channelId) == ClearLadder(t, channelId)
  {
    if t != [] {
      ClearTwice(t[1..], channelId);
      if t[0].channelId != channelId {
        var rest := ClearLadder(t[1..], channelId);
        assert ([t[0]] + rest)[1..] == rest;
      }
    }
  }

  /** `removeUser`: deletes the rows with the entry's (channel, user) key and
      no other; it succeeds when there is none. Over a table with unique
      keys that is exactly the row at `KeyIndex`, cut out in place
      (`Leave.RemoveTheRow`). */
  function RemoveUser(t: Table, l: Ladder): (t': Table)
    ensures forall x :: x in t' <==> x in t && !HasKey(x, l.channelId, l.userId)
    ensures KeyIndex(t, l.userId, l.channelId) == |t| ==> t' == t
    ensures |t'| <= |t|
  {
    if t == [] then []
    else if HasKey(t[0], l.channelId, l.userId) then RemoveUser(t[1..], l)
    else [t[0]] + RemoveUser(t[1..], l)
  }

  /** The rowid SQLite gives a row inserted without one: one more than the
      largest in use, 1 in an empty table. */
  function FreshId(t: Table): (id: int)
    ensures forall i :: 0 <= i < |t| ==> t[i].id < id
    ensures t == [] ==> id == 1
    ensures t != [] ==> exists i :: 0 <= i < |t| && t[i].id == id - 1
  {
    if t == [] then 1
    else if |t| == 1 then t[0].id + 1
    else var m := FreshId(t[1..]); if t[0].id >= m then t[0].id + 1 else m
  }

  /** `insertOrUpdate`: a key not yet in the table gets a new row with a
      fresh id at the end; a key already present has its first row's rank
      replaced, keeping that row's id, channel and user. */
  function InsertOrUpdate(t: Table, l: Ladder): (t': Table)
    ensures var k := KeyIndex(t, l.userId, l.channelId);
      if k == |t| then
        |t'| == |t| + 1 && t'[..|t|] == t &&
        HasKey(t'[|t|], l.channelId, l.userId) && t'[|t|].rank == l.rank &&
        t'[|t|].id == FreshId(t) && forall i :: 0 <= i < |t| ==> t[i].id != t'[|t|].id
      else
        |t'| == |t| && t'[k] == t[k].(rank := l.rank) &&
        forall i :: 0 <= i < |t| && i != k ==> t'[i] == t[i]
    ensures GetUser(t', l.userId, l.channelId).Ok?
    ensures GetUser(t', l.userId, l.channelId).value.rank == l.rank
    ensures Valid(t) ==> Valid(t')
  {
    var k := KeyIndex(t, l.userId, l.channelId);
    if k == |t| then t + [Ladder(FreshId(t), l.channelId, l.userId, l.rank)]
    else t[k := t[k].(rank := l.rank)]
  }

  /** The rows `updateLadder` leaves: every entry upserted, in list order. */
  function UpdateAll(t: Table, ls: seq<Ladder>): (t': Table)
    ensures Valid(t) ==> Valid(t')
    decreases |ls|
  {
    if ls == [] then t else UpdateAll(InsertOrUpdate(t, ls[0]), ls[1..])
  }

  /** Writing a + b is writing a and then b; nothing groups the writes,
      so a caller that stops partway keeps what was written. */
  lemma {:induction false} UpdateAllConcat(t: Table, a: seq<Ladder>, b: seq<Ladder>)
    ensures UpdateAll(t, a + b) == UpdateAll(UpdateAll(t, a), b)
    decreases |a|
  {
    if a == [] {
      assert a + b == b;
    } else {
      assert (a + b)[0] == a[0];
      assert (a + b)[1..] == a[1..] + b;
      UpdateAllConcat(InsertOrUpdate(t, a[0]), a[1..], b);
    }
  }

  /** `updateLadder`: upserts the entries one statement at a time, outside
      any transaction. */
  method UpdateLadder(t: Table, ls: seq<Ladder>) returns (t': Table)
    ensures t' == UpdateAll(t, ls)
  {
    t' := t;
    for i := 0 to |ls|
      invariant UpdateAll(t', ls[i..]) == UpdateAll(t, ls)
    {
      assert ls[i..][1..] == ls[i + 1..];
      t' := InsertOrUpdate(t', ls[i]);
    }
  }

  /** Writing entries one at a time through an upsert that never fails
      is `UpdateAll`, and passes. */
  lemma {:induction false} UpsertsAll(write: (Table, Ladder) -> (Table, Outcome), t: Table, ls: seq<Ladder>)
    requires forall t0, l :: write(t0, l) == (InsertOrUpdate(t0, l), Pass)
    ensures WriteEach(write, t, ls) == (UpdateAll(t, ls), Pass)
    decreases |ls|
  {
    if ls != [] {
      UpsertsAll(write, InsertOrUpdate(t, ls[0]), ls[1..]);
    }
  }

  /** The sqlite backend behind the storage interface. sqlite.go defines no
      `getLadders`, which the interface asks for, so the caller supplies it.
      No write against the table fails, and `updateLadder` is the
      one-entry-at-a-time loop over `insertOrUpdate`. */
  function SqliteDb(getLadders: Table -> Result<seq<string>>): (db: Db<Table>)
    ensures db.getLadders == getLadders
    ensures forall t, c :: db.clearLadder(t, c).1 == Pass
    ensures forall t, l :: db.removeUser(t, l).1 == Pass
    ensures forall t, l :: db.insertOrUpdate(t, l).1 == Pass
    ensures forall t, ls :: db.updateLadder(t, ls) == WriteEach(db.insertOrUpdate, t, ls)
  {
    var db := Db(
      (t, u, c) => GetUser(t, u, c),
      (t, c, r) => GetUserAbove(t, c, r),
      (t, c) => GetLastUser(t, c),
      getLadders,
      (t, c) => GetLadder(t, c),
      (t, c) => (ClearLadder(t, c), Pass),
      (t, l) => (RemoveUser(t, l), Pass),
      (t, l) => (InsertOrUpdate(t, l), Pass),
      (t, ls) => (UpdateAll(t, ls), Pass));
    assert forall t, ls :: db.updateLadder(t, ls) == WriteEach(db.insertOrUpdate, t, ls) by {
      forall t, ls ensures db.updateLadder(t, ls) == WriteEach(db.insertOrUpdate, t, ls) {
        UpsertsAll(db.insertOrUpdate, t, ls);
      }
    }
    db
  }
}
