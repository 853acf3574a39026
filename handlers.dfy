// The four ladder-changing handlers run against the sqlite backend. Each
// keeps the table well formed (row ids unique, one row per user and
// channel) and leaves the channel's ranks as 0, ..., n-1, which is what
// the ladder display and `challenge` depend on.
module Handlers {
  import opened Records
  import opened Store
  import opened Sqlite
  import opened Ranking
  import opened Commands
  import opened Contiguity
  import opened Leave
  import opened Reshuffle

  /** `won` on sqlite: a winner below the top swaps ranks with the user one
      place above; the top user and an unknown user leave the table as it
      was. */
  method WonOnLadder(getLadders: Table -> Result<seq<string>>, t: Table, channelId: string, userId: string)
    returns (t': Table, o: Outcome)
    requires Valid(t) && Contiguous(t, channelId)
    ensures Valid(t') && Contiguous(t', channelId)
    ensures GetUser(t, userId, channelId).Err? ==> t' == t && o == Fail(NotFoundError("unable to get user"))
    ensures GetUser(t, userId, channelId).Ok? && GetUser(t, userId, channelId).value.rank == 0 ==> t' == t && o == Pass
    ensures GetUser(t, userId, channelId).Ok? && GetUser(t, userId, channelId).value.rank != 0 ==>
      var w := GetUser(t, userId, channelId).value;
      && o == Pass && GetUserAbove(t, channelId, w.rank).Ok?
      && var l := GetUserAbove(t, channelId, w.rank).value;
      var k := KeyIndex(t, userId, channelId);
      var m := KeyIndex(t, l.userId, channelId);
      && l.rank == w.rank - 1 && k < |t| && m < |t|
      && t' == t[k := w.(rank := w.rank - 1)][m := l.(rank := w.rank)]
  {
    t', o := Won(SqliteDb(getLadders), t, channelId, userId);
    var found := GetUser(t, userId, channelId);
    if found.Ok? && found.value.rank != 0 {
      WonOnContiguous(t, channelId, userId);
      var w := found.value;
      var l := GetUserAbove(t, channelId, w.rank).value;
      UpsertsNeverFail(getLadders, t, [w.(rank := l.rank), l.(rank := w.rank)]);
    }
  }

  /** `userJoined` on sqlite for a user not yet on the ladder: the user is
      appended at the bottom with a fresh row id. On an empty ladder the
      handler fails, because there is no last user to go below. */
  method JoinOnLadder(getLadders: Table -> Result<seq<string>>, t: Table, channelId: string, userId: string)
    returns (t': Table, o: Outcome)
    requires Valid(t) && Contiguous(t, channelId) && GetUser(t, userId, channelId).Err?
    ensures Valid(t') && Contiguous(t', channelId)
    ensures Count(t, channelId) == 0 ==> t' == t && o == Fail(NotFoundError("unable to get user below"))
    ensures Count(t, channelId) > 0 ==>
      && o == Pass
      && t' == t + [Ladder(FreshId(t), channelId, userId, Count(t, channelId))]
      && GetUser(t', userId, channelId).Ok?
  {
    t', o := UserJoined(SqliteDb(getLadders), t, channelId, userId);
    if Count(t, channelId) == 0 {
      JoinEmpty(t, channelId);
      assert t' == t;
    } else {
      JoinOnContiguous(t, channelId, userId);
      JoinedOnSqlite(getLadders, t, channelId, userId, t', o);
    }
  }

  /** What `userJoined` leaves when the ladder has a last user. */
  lemma JoinedOnSqlite(getLadders: Table -> Result<seq<string>>, t: Table, channelId: string, userId: string, t': Table, o: Outcome)
    requires GetLastUser(t, channelId).Ok?
    requires match SqliteDb(getLadders).getLastUser(t, channelId)
      case Err(e) => t' == t && o == Fail(e)
      case Ok(last) => (t', o) == SqliteDb(getLadders).insertOrUpdate(t, Ladder(0, channelId, userId, last.rank + 1))
    ensures t' == InsertOrUpdate(t, Ladder(0, channelId, userId, GetLastUser(t, channelId).value.rank + 1)) && o == Pass
  {
    SqliteLastUser(getLadders, t, channelId);
    var row := Ladder(0, channelId, userId, GetLastUser(t, channelId).value.rank + 1);
    assert SqliteDb(getLadders).getLastUser(t, channelId).Ok?;
    assert Ladder(0, channelId, userId, SqliteDb(getLadders).getLastUser(t, channelId).value.rank + 1) == row;
    assert (t', o) == SqliteDb(getLadders).insertOrUpdate(t, row);
    SqliteUpsert(getLadders, t, row);
  }

  lemma SqliteLastUser(getLadders: Table -> Result<seq<string>>, t: Table, channelId: string)
    ensures SqliteDb(getLadders).getLastUser(t, channelId) == GetLastUser(t, channelId)
  {
  }

  lemma SqliteUpsert(getLadders: Table -> Result<seq<string>>, t: Table, row: Ladder)
    ensures SqliteDb(getLadders).insertOrUpdate(t, row) == (InsertOrUpdate(t, row), Pass)
  {
  }

  /** `userLeft` on sqlite: the user's row goes and the rest of the channel
      is renumbered 0, ..., n-2 in ladder order, each user keeping their
      row; other channels are untouched. A user with no row makes the
      handler panic and nothing is written. */
  method LeaveOnLadder(getLadders: Table -> Result<seq<string>>, t: Table, channelId: string, userId: string)
    returns (t': Table, run: Run)
    requires Valid(t)
    ensures GetUser(t, userId, channelId).Err? ==>
      t' == t && run == Panicked(if Count(t, channelId) == 0 then MakesliceLen else IndexOutOfRange)
    ensures GetUser(t, userId, channelId).Ok? ==>
      var st := Staying(GetLadder(t, channelId).value, userId);
      && run == Returned(Pass)
      && t' == UpdateAll(RemoveUser(t, GetUser(t, userId, channelId).value), Renumbered(st))
      && Valid(t') && Contiguous(t', channelId)
      && Count(t', channelId) == Count(t, channelId) - 1
      && GetUser(t', userId, channelId).Err?
      && (forall j :: 0 <= j < |st| ==> GetUser(t', st[j].userId, channelId) == Ok(st[j].(rank := j)))
      && (forall c :: c != channelId ==> ChannelRows(t', c) == ChannelRows(t, c))
  {
    t', run := UserLeft(SqliteDb(getLadders), t, channelId, userId);
    if GetUser(t, userId, channelId).Ok? {
      LeavingOnSqlite(getLadders, t, channelId, userId);
      LeftContiguous(t, channelId, userId);
      LeftElsewhere(t, channelId, userId);
      LeftRanks(t, channelId, userId);
    } else {
      LeavingAbsent(getLadders, t, channelId, userId);
    }
  }

  /** `shuffle` on sqlite: the channel is cleared and refilled from the
      member list. The writes cannot fail; a finished run over a member
      list without repeats leaves exactly the members other than the bot
      on a contiguous ladder and the other channels untouched. */
  method ShuffleOnLadder(getLadders: Table -> Result<seq<string>>, t: Table, channelId: string,
                         members: Result<seq<string>>, botId: string, draws: seq<nat>)
    returns (t': Table, run: Run, claimed: seq<Ladder>)
    requires Valid(t)
    ensures members.Err? ==> t' == ClearLadder(t, channelId) && run == Returned(Fail(members.error))
    ensures members.Ok? ==> t' == UpdateAll(ClearLadder(t, channelId), claimed) && !(run.Returned? && run.outcome.Fail?)
    ensures members.Ok? && Distinct(members.value) && run == Returned(Pass) ==>
      && Valid(t') && Contiguous(t', channelId)
      && Users(ChannelRows(t', channelId)) == NonBot(members.value, botId)
      && (forall c :: c != channelId ==> ChannelRows(t', c) == ChannelRows(t, c))
  {
    var used;
    t', run, claimed, used := Shuffle(SqliteDb(getLadders), t, channelId, members, botId, draws);
    if members.Ok? {
      var s0 := ClearLadder(t, channelId);
      ShuffleNeverFails(getLadders, s0, channelId, members.value, botId, t', run, claimed);
      if Distinct(members.value) && run == Returned(Pass) {
        ShuffledContiguous(getLadders, t, channelId, members.value, botId, t', claimed);
      }
    }
  }
}
