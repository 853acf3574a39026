// `shuffle` against the sqlite backend. Clearing removes the channel's
// rows; each member other than the bot is then inserted as a new row at a
// distinct random rank in [0, ml). When the member list has no repeats and
// a run finishes, every member but the bot has a row and the channel is
// contiguous.
module Reshuffle {
  import opened Records
  import opened Store
  import opened Sqlite
  import opened Ranking
  import opened Commands
  import opened Contiguity
  import opened Leave

  /** No value occurs twice. */
  predicate Distinct<T(==)>(s: seq<T>) {
    forall i, j :: 0 <= i < j < |s| ==> s[i] != s[j]
  }

  /** Dropping the last value keeps a list free of repeats. */
  lemma DistinctInit<T>(s: seq<T>)
    requires Distinct(s) && s != []
    ensures Distinct(s[..|s| - 1])
    ensures s[|s| - 1] !in s[..|s| - 1]
  {
    var init := s[..|s| - 1];
    forall i, j | 0 <= i < j < |init| ensures init[i] != init[j] {
      assert init[i] == s[i] && init[j] == s[j];
    }
    forall i | 0 <= i < |init| ensures init[i] != s[|s| - 1] {
      assert init[i] == s[i];
    }
  }

  /** In a member list without repeats that includes the bot, leaving out
      the bot leaves one member fewer. */
  lemma {:induction false} NonBotDrops(members: seq<string>, botId: string)
    requires Distinct(members) && botId in members
    ensures |NonBot(members, botId)| == |members| - 1
    decreases |members|
  {
    var init, last := members[..|members| - 1], members[|members| - 1];
    DistinctInit(members);
    assert members == init + [last];
    assert |NonBot(members, botId)| == |NonBot(init, botId)| + (if last != botId then 1 else 0);
    if last != botId {
      assert botId in init;
      NonBotDrops(init, botId);
    }
  }

  /** Leaving out the bot keeps a list without repeats free of them. */
  lemma {:induction false} NonBotDistinct(members: seq<string>, botId: string)
    requires Distinct(members)
    ensures Distinct(NonBot(members, botId))
    decreases |members|
  {
    if members != [] {
      var init, last := members[..|members| - 1], members[|members| - 1];
      NonBotDistinct(init, botId);
      var k := NonBot(init, botId);
      if last != botId {
        forall y | y in k ensures y != last {
          var i :| 0 <= i < |init| && init[i] == y;
          assert members[i] == y;
        }
        var r := k + [last];
        forall i, j | 0 <= i < j < |r| ensures r[i] != r[j] {
          if j == |k| {
            assert r[i] in k;
          } else {
            assert r[i] == k[i] && r[j] == k[j];
          }
        }
      }
    }
  }

  lemma UsersConcat(a: seq<Ladder>, b: seq<Ladder>)
    ensures Users(a + b) == Users(a) + Users(b)
  {
  }

  /** The rows after the first of a well-formed table form one too, and
      none of them clashes with the first. */
  lemma ValidTail(t: Table)
    requires Valid(t) && t != []
    ensures Valid(t[1..])
    ensures forall y :: y in t[1..] ==> y.id != t[0].id && (y.channelId == t[0].channelId ==> y.userId != t[0].userId)
  {
    var rest := t[1..];
    UniqueKeysTail(t);
    forall i, j | 0 <= i < j < |rest| ensures rest[i].id != rest[j].id {
      assert rest[i] == t[i + 1] && rest[j] == t[j + 1];
    }
    forall y | y in rest ensures y.id != t[0].id && (y.channelId == t[0].channelId ==> y.userId != t[0].userId) {
      var i :| 0 <= i < |rest| && rest[i] == y;
      assert t[i + 1] == y;
    }
  }

  /** A row that clashes with none of a well-formed table can go in front. */
  lemma ValidCons(x: Ladder, c: Table)
    requires Valid(c)
    requires forall y :: y in c ==> y.id != x.id && (y.channelId == x.channelId ==> y.userId != x.userId)
    ensures Valid([x] + c)
  {
    var u := [x] + c;
    forall i, j | 0 <= i < j < |u|
      ensures u[i].id != u[j].id
      ensures u[i].channelId == u[j].channelId ==> u[i].userId != u[j].userId
    {
      assert u[j] == c[j - 1];
      if i > 0 {
        assert u[i] == c[i - 1];
      } else {
        assert u[j] in c;
      }
    }
  }

  /** `clearLadder` keeps a table well formed. */
  lemma {:induction false} ClearKeepsValid(t: Table, channelId: string)
    requires Valid(t)
    ensures Valid(ClearLadder(t, channelId))
  {
    if t != [] {
      ValidTail(t);
      ClearKeepsValid(t[1..], channelId);
      if t[0].channelId != channelId {
        ValidCons(t[0], ClearLadder(t[1..], channelId));
      }
    }
  }

  /** Claims for distinct users of one channel, none of whom has a row
      there yet, on a well-formed table. */
  predicate Insertable(t: Table, cs: seq<Ladder>, channelId: string) {
    && Valid(t) && DistinctUsers(cs)
    && (forall i :: 0 <= i < |cs| ==> cs[i].channelId == channelId)
    && (forall x, i :: x in t && 0 <= i < |cs| ==> !HasKey(x, channelId, cs[i].userId))
  }

  /** The first claim is appended as a new row, and the later claims are
      still insertable. */
  lemma InsertFreshStep(t: Table, cs: seq<Ladder>, channelId: string) returns (row: Ladder)
    requires Insertable(t, cs, channelId) && cs != []
    ensures row == Ladder(FreshId(t), channelId, cs[0].userId, cs[0].rank)
    ensures InsertOrUpdate(t, cs[0]) == t + [row]
    ensures Insertable(t + [row], cs[1..], channelId)
  {
    var c := cs[0];
    row := Ladder(FreshId(t), channelId, c.userId, c.rank);
    forall j | 0 <= j < |t| ensures !HasKey(t[j], channelId, c.userId) {
      assert t[j] in t;
    }
    assert KeyIndex(t, c.userId, channelId) == |t|;
    var rest := cs[1..];
    forall i, j | 0 <= i < j < |rest| ensures rest[i].userId != rest[j].userId {
      assert rest[i] == cs[i + 1] && rest[j] == cs[j + 1];
    }
    forall x, i | x in t + [row] && 0 <= i < |rest| ensures !HasKey(x, channelId, rest[i].userId) {
      assert rest[i] == cs[i + 1];
    }
    forall i | 0 <= i < |rest| ensures rest[i].channelId == channelId {
      assert rest[i] == cs[i + 1];
    }
  }

  lemma UsersCons(cs: seq<Ladder>)
    requires cs != []
    ensures Users(cs) == [cs[0].userId] + Users(cs[1..])
  {
    assert cs == [cs[0]] + cs[1..];
    UsersConcat([cs[0]], cs[1..]);
  }

  lemma AppendedUser(t: Table, row: Ladder, channelId: string)
    requires row.channelId == channelId
    ensures Users(ChannelRows(t + [row], channelId)) == Users(ChannelRows(t, channelId)) + [row.userId]
  {
    ChannelRowsSnoc(t, row, channelId);
    UsersConcat(ChannelRows(t, channelId), [row]);
  }

  /** Insertable claims are each appended as a new row, for the claim's
      user, in order. */
  lemma {:induction false} InsertFreshUsers(t: Table, cs: seq<Ladder>, channelId: string)
    requires Insertable(t, cs, channelId)
    ensures Users(ChannelRows(UpdateAll(t, cs), channelId)) == Users(ChannelRows(t, channelId)) + Users(cs)
    decreases |cs|
  {
    if cs != [] {
      var row := InsertFreshStep(t, cs, channelId);
      var t1, rest := t + [row], cs[1..];
      InsertFreshUsers(t1, rest, channelId);
      assert UpdateAll(t, cs) == UpdateAll(t1, rest);
      AppendedUser(t, row, channelId);
      UsersCons(cs);
      SeqAssoc(Users(ChannelRows(t, channelId)), [row.userId], Users(rest));
    }
  }

  lemma SeqAssoc<T>(a: seq<T>, b: seq<T>, c: seq<T>)
    ensures (a + b) + c == a + (b + c)
  {
  }

  lemma BagAssoc<T>(a: multiset<T>, b: multiset<T>, c: multiset<T>)
    ensures (a + b) + c == a + (b + c)
  {
  }

  /** ... each with the rank it claims. */
  lemma {:induction false} InsertFreshRanks(t: Table, cs: seq<Ladder>, channelId: string)
    requires Insertable(t, cs, channelId)
    ensures RankBag(ChannelRows(UpdateAll(t, cs), channelId)) == RankBag(ChannelRows(t, channelId)) + RankBag(cs)
    decreases |cs|
  {
    if cs != [] {
      var row := InsertFreshStep(t, cs, channelId);
      var t1, rest := t + [row], cs[1..];
      var b1 := RankBag(ChannelRows(t1, channelId));
      assert RankBag(ChannelRows(UpdateAll(t, cs), channelId)) == b1 + RankBag(rest) by {
        InsertFreshRanks(t1, rest, channelId);
        assert UpdateAll(t, cs) == UpdateAll(t1, rest);
      }
      assert b1 == RankBag(ChannelRows(t, channelId)) + multiset{cs[0].rank} by {
        ChannelRowsSnoc(t, row, channelId);
        RankBagConcat(ChannelRows(t, channelId), [row]);
        assert RankBag([row]) == multiset{cs[0].rank};
      }
      assert RankBag(cs) == multiset{cs[0].rank} + RankBag(rest);
      BagAssoc(RankBag(ChannelRows(t, channelId)), multiset{cs[0].rank}, RankBag(rest));
    }
  }

  /** Inserting claims of one channel leaves every other channel's rows alone. */
  lemma {:induction false} InsertFreshOthers(t: Table, cs: seq<Ladder>, channelId: string, other: string)
    requires Insertable(t, cs, channelId) && other != channelId
    ensures ChannelRows(UpdateAll(t, cs), other) == ChannelRows(t, other)
    decreases |cs|
  {
    if cs != [] {
      var row := InsertFreshStep(t, cs, channelId);
      InsertFreshOthers(t + [row], cs[1..], channelId, other);
      assert UpdateAll(t, cs) == UpdateAll(t + [row], cs[1..]);
      ChannelRowsSnoc(t, row, other);
    }
  }

  /** The sqlite writes never fail, so neither does shuffle's loop: it ends
      with success, a panic, or out of draws. */
  lemma ShuffleNeverFails(getLadders: Table -> Result<seq<string>>, s0: Table, channelId: string,
                          members: seq<string>, botId: string, s': Table, run: Run, claimed: seq<Ladder>)
    requires Assigned(SqliteDb(getLadders), s0, channelId, members, botId, s', run, claimed)
    ensures run.Returned? ==> run.outcome == Pass
    ensures s' == UpdateAll(s0, claimed)
  {
    UpsertsNeverFail(getLadders, s0, claimed);
  }

  /** The claims of a finished shuffle on a cleared sqlite table can be
      inserted as new rows. */
  lemma ClaimsInsertable(getLadders: Table -> Result<seq<string>>, t: Table, channelId: string,
                         members: seq<string>, botId: string, s': Table, claimed: seq<Ladder>)
    requires Valid(t) && Distinct(members)
    requires Assigned(SqliteDb(getLadders), ClearLadder(t, channelId), channelId, members, botId, s', Returned(Pass), claimed)
    ensures Insertable(ClearLadder(t, channelId), claimed, channelId)
  {
    var s0 := ClearLadder(t, channelId);
    ClearKeepsValid(t, channelId);
    NonBotDistinct(members, botId);
    var u := Users(claimed);
    forall i, j | 0 <= i < j < |claimed| ensures claimed[i].userId != claimed[j].userId {
      assert u[i] != u[j];
    }
  }

  /** The ranks a finished shuffle claims are 0, ..., n-1 for the n members
      other than the bot, when the member list has no repeats. */
  lemma ClaimedRanks(getLadders: Table -> Result<seq<string>>, s0: Table, channelId: string,
                     members: seq<string>, botId: string, s': Table, claimed: seq<Ladder>)
    requires Distinct(members)
    requires Assigned(SqliteDb(getLadders), s0, channelId, members, botId, s', Returned(Pass), claimed)
    ensures RankBag(claimed) == Interval(|claimed|)
  {
    if members != [] {
      NonBotDrops(members, botId);
      assert members[0] in members;
      DistinctRanksBound(claimed, |members| - 1);
    }
  }

  lemma {:induction false} InsertFreshValid(t: Table, cs: seq<Ladder>, channelId: string)
    requires Insertable(t, cs, channelId)
    ensures Valid(UpdateAll(t, cs))
    decreases |cs|
  {
    if cs != [] {
      var row := InsertFreshStep(t, cs, channelId);
      InsertFreshValid(t + [row], cs[1..], channelId);
      assert UpdateAll(t, cs) == UpdateAll(t + [row], cs[1..]);
    }
  }

  /** Everybody listed among a channel's rows has a row to fetch. */
  lemma RowOfUser(t: Table, channelId: string, userId: string)
    requires userId in Users(ChannelRows(t, channelId))
    ensures GetUser(t, userId, channelId).Ok?
  {
    var c := ChannelRows(t, channelId);
    var i :| 0 <= i < |c| && Users(c)[i] == userId;
    assert c[i] in c;
    var j :| 0 <= j < |t| && t[j] == c[i];
    assert HasKey(t[j], channelId, userId);
  }

  /** Inserting claims holding ranks 0, ..., n-1 into a channel with no
      rows leaves a contiguous ladder of exactly the claimed users. */
  lemma FilledContiguous(s0: Table, cs: seq<Ladder>, channelId: string)
    requires Insertable(s0, cs, channelId) && ChannelRows(s0, channelId) == []
    requires RankBag(cs) == Interval(|cs|)
    ensures Valid(UpdateAll(s0, cs)) && Contiguous(UpdateAll(s0, cs), channelId)
    ensures Users(ChannelRows(UpdateAll(s0, cs), channelId)) == Users(cs)
  {
    InsertFreshValid(s0, cs, channelId);
    InsertFreshRanks(s0, cs, channelId);
    InsertFreshUsers(s0, cs, channelId);
    var c := ChannelRows(UpdateAll(s0, cs), channelId);
    assert [] + Users(cs) == Users(cs);
    assert |Users(c)| == |cs|;
  }

  /** `shuffle` on a well-formed sqlite table, for a member list without
      repeats, once its run finishes: every member but the bot has a row
      in the channel, there are no others, the channel is contiguous, and
      the other channels are as they were. */
  lemma ShuffledContiguous(getLadders: Table -> Result<seq<string>>, t: Table, channelId: string,
                           members: seq<string>, botId: string, s': Table, claimed: seq<Ladder>)
    requires Valid(t) && Distinct(members)
    requires Assigned(SqliteDb(getLadders), ClearLadder(t, channelId), channelId, members, botId, s', Returned(Pass), claimed)
    ensures Valid(s') && Contiguous(s', channelId)
    ensures Users(ChannelRows(s', channelId)) == NonBot(members, botId)
    ensures forall m :: m in members && m != botId ==> GetUser(s', m, channelId).Ok?
    ensures forall c :: c != channelId ==> ChannelRows(s', c) == ChannelRows(t, c)
  {
    var s0 := ClearLadder(t, channelId);
    ShuffleNeverFails(getLadders, s0, channelId, members, botId, s', Returned(Pass), claimed);
    ClaimsInsertable(getLadders, t, channelId, members, botId, s', claimed);
    ClaimedRanks(getLadders, s0, channelId, members, botId, s', claimed);
    FilledContiguous(s0, claimed, channelId);
    forall m | m in members && m != botId ensures GetUser(s', m, channelId).Ok? {
      assert m in NonBot(members, botId);
      RowOfUser(s', channelId, m);
    }
    forall other | other != channelId ensures ChannelRows(s', other) == ChannelRows(t, other) {
      InsertFreshOthers(s0, claimed, channelId, other);
    }
  }
}
