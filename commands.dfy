// The rank-changing parts of the command handlers (commands.go), written
// against the storage interface. The chat calls are left out: a handler
// here ends with the backend state it leaves and what it returns, before
// any message is composed or sent.
module Commands {
  import opened Records
  import opened Store
  import opened Ranking

  /** How a handler ends: it returns (nil or an error), the Go runtime
      panics, or (for shuffle only) the supplied random draws run out while
      the rejection loop is still looking for a free rank. */
  datatype Run = Returned(outcome: Outcome) | Panicked(reason: string) | Unfinished

  const MakesliceLen := "makeslice: len out of range"
  const IndexOutOfRange := "index out of range"
  const DivideByZero := "integer divide by zero"

  /** `won`: a winner already at rank 0 writes nothing; otherwise the
      winner and the entry `getUserAbove` returns exchange ranks, written
      as two separate calls, the winner's first. Every lookup error,
      not-found included, is returned and nothing is written. */
  method Won<S>(db: Db<S>, s: S, channelId: string, userId: string) returns (s': S, o: Outcome)
    ensures match db.getUser(s, userId, channelId)
      case Err(e) => s' == s && o == Fail(e)
      case Ok(winner) =>
        if winner.rank == 0 then s' == s && o == Pass
        else match db.getUserAbove(s, channelId, winner.rank)
          case Err(e) => s' == s && o == Fail(e)
          case Ok(loser) =>
            (s', o) == WriteEach(db.insertOrUpdate, s, [winner.(rank := loser.rank), loser.(rank := winner.rank)])
  {
    var found := db.getUser(s, userId, channelId);
    if found.Err? {
      return s, Fail(found.error);
    }
    var winner := found.value;
    if winner.rank == 0 {
      return s, Pass;
    }
    var above := db.getUserAbove(s, channelId, winner.rank);
    if above.Err? {
      return s, Fail(above.error);
    }
    var loser := above.value;
    ghost var pair := [winner.(rank := loser.rank), loser.(rank := winner.rank)];
    winner, loser := winner.(rank := loser.rank), loser.(rank := winner.rank);
    var (s1, o1) := db.insertOrUpdate(s, winner);
    if o1.Fail? {
      return s1, o1;
    }
    var (s2, o2) := db.insertOrUpdate(s1, loser);
    assert pair[1..] == [loser] && pair[1..][1..] == [];
    assert WriteEach(db.insertOrUpdate, s1, [loser]) == (s2, o2);
    assert WriteEach(db.insertOrUpdate, s, pair) == WriteEach(db.insertOrUpdate, s1, pair[1..]);
    return s2, o2;
  }

  /** `challenge`: the entry the challenger would play, if any. A missing
      entry above is not an error (the challenger is at the top), unlike in
      `won`; every other error is returned. */
  function Challenge<S>(db: Db<S>, s: S, channelId: string, userId: string): (r: Result<Option<Ladder>>)
    ensures db.getUser(s, userId, channelId).Err? ==> r == Err(db.getUser(s, userId, channelId).error)
    ensures r == Ok(None) <==>
      (db.getUser(s, userId, channelId).Ok? &&
       var above := db.getUserAbove(s, channelId, db.getUser(s, userId, channelId).value.rank);
       above.Err? && IsNotFound(above.error))
    ensures r.Ok? && r.value.Some? ==>
      db.getUser(s, userId, channelId).Ok? &&
      db.getUserAbove(s, channelId, db.getUser(s, userId, channelId).value.rank) == Ok(r.value.value)
    ensures r.Err? && db.getUser(s, userId, channelId).Ok? ==>
      !IsNotFound(r.error) &&
      db.getUserAbove(s, channelId, db.getUser(s, userId, channelId).value.rank) == Err(r.error)
  {
    match db.getUser(s, userId, channelId)
    case Err(e) => Err(e)
    case Ok(challenger) =>
      match db.getUserAbove(s, channelId, challenger.rank)
      case Err(e) => if IsNotFound(e) then Ok(None) else Err(e)
      case Ok(challenged) => Ok(Some(challenged))
  }

  /** `userJoined`: the newcomer is written one rank below the last entry
      (id 0, so a backend assigns its own). An error from `getLastUser`,
      including not-found on an empty channel, is returned and nothing is
      written. */
  method UserJoined<S>(db: Db<S>, s: S, channelId: string, userId: string) returns (s': S, o: Outcome)
    ensures match db.getLastUser(s, channelId)
      case Err(e) => s' == s && o == Fail(e)
      case Ok(last) => (s', o) == db.insertOrUpdate(s, Ladder(0, channelId, userId, last.rank + 1))
  {
    var found := db.getLastUser(s, channelId);
    if found.Err? {
      return s, Fail(found.error);
    }
    var last := found.value;
    var (s1, o1) := db.insertOrUpdate(s, Ladder(0, channelId, userId, last.rank + 1));
    return s1, o1;
  }

  /** The entries of the departing user, in ladder order. */
  function Departing(users: seq<Ladder>, userId: string): seq<Ladder>
    decreases |users|
  {
    if users == [] then []
    else
      var last := users[|users| - 1];
      Departing(users[..|users| - 1], userId) + (if last.userId == userId then [last] else [])
  }

  /** The entries that stay, in ladder order. */
  function Staying(users: seq<Ladder>, userId: string): seq<Ladder>
    decreases |users|
  {
    if users == [] then []
    else
      var last := users[|users| - 1];
      Staying(users[..|users| - 1], userId) + (if last.userId != userId then [last] else [])
  }

  /** Every entry either departs or stays: the two lists split the
      ladder, and each holds exactly the entries of its kind. */
  lemma {:induction false} LeavingSplits(users: seq<Ladder>, userId: string)
    ensures |Staying(users, userId)| + |Departing(users, userId)| == |users|
    ensures forall x :: x in Departing(users, userId) <==> x in users && x.userId == userId
    ensures forall x :: x in Staying(users, userId) <==> x in users && x.userId != userId
    decreases |users|
  {
    if users != [] {
      var init := users[..|users| - 1];
      LeavingSplits(init, userId);
      assert users == init + [users[|users| - 1]];
    }
  }

  /** The entries, each given its position as its rank. */
  function Renumbered(ls: seq<Ladder>): (r: seq<Ladder>)
    ensures |r| == |ls|
    ensures forall i :: 0 <= i < |r| ==> r[i] == ls[i].(rank := i)
  {
    seq(|ls|, i requires 0 <= i < |ls| => ls[i].(rank := i))
  }

  /** What `userLeft` hands to `updateLadder`: the staying entries in their
      ladder order with ranks 0, 1, ..., followed by one zero record for
      each occurrence of the departing user beyond the first (the slice has
      one slot fewer than the ladder). */
  function Compacted(users: seq<Ladder>, userId: string): (r: seq<Ladder>)
    requires Departing(users, userId) != []
    ensures |r| == |users| - 1
    ensures forall i :: 0 <= i < |r| ==>
      r[i] == if i < |Staying(users, userId)| then Staying(users, userId)[i].(rank := i) else ZeroLadder()
  {
    LeavingSplits(users, userId);
    Renumbered(Staying(users, userId)) + seq(|Departing(users, userId)| - 1, _ => ZeroLadder())
  }

  /** The effect of `userLeft`: on an empty ladder the slice allocation
      panics; when the user is not on the ladder the last staying entry is
      written one past the end and the runtime panics; otherwise each
      occurrence is removed in order (stopping at the first error), then the
      compacted ladder is written. */
  function Leaving<S>(db: Db<S>, s: S, channelId: string, userId: string): (S, Run)
  {
    match db.getLadder(s, channelId)
    case Err(e) => (s, Returned(Fail(e)))
    case Ok(users) =>
      if |users| == 0 then (s, Panicked(MakesliceLen))
      else if Departing(users, userId) == [] then (s, Panicked(IndexOutOfRange))
      else
        var (s1, o1) := WriteEach(db.removeUser, s, Departing(users, userId));
        if o1.Fail? then (s1, Returned(o1))
        else
          var (s2, o2) := db.updateLadder(s1, Compacted(users, userId));
          (s2, Returned(o2))
  }

  lemma {:induction false} DepartingConcat(a: seq<Ladder>, b: seq<Ladder>, userId: string)
    ensures Departing(a + b, userId) == Departing(a, userId) + Departing(b, userId)
    decreases |b|
  {
    if b == [] {
      assert a + b == a;
    } else {
      var ab := a + b;
      assert ab[..|ab| - 1] == a + b[..|b| - 1];
      assert ab[|ab| - 1] == b[|b| - 1];
      DepartingConcat(a, b[..|b| - 1], userId);
    }
  }

  /** One more entry of the ladder is either staying or departing. */
  lemma LeavingStep(users: seq<Ladder>, userId: string, i: int)
    requires 0 <= i < |users|
    ensures Staying(users[..i + 1], userId) ==
      Staying(users[..i], userId) + (if users[i].userId != userId then [users[i]] else [])
    ensures Departing(users[..i + 1], userId) ==
      Departing(users[..i], userId) + (if users[i].userId == userId then [users[i]] else [])
  {
    assert users[..i + 1][..i] == users[..i];
  }

  /** A failing removal of occurrence users[i] ends the removals. */
  lemma RemovalFailsAt<S>(db: Db<S>, s: S, users: seq<Ladder>, userId: string, i: int, before: S)
    requires 0 <= i < |users| && users[i].userId == userId
    requires WriteEach(db.removeUser, s, Departing(users[..i], userId)) == (before, Pass)
    requires db.removeUser(before, users[i]).1.Fail?
    ensures WriteEach(db.removeUser, s, Departing(users, userId)) == db.removeUser(before, users[i])
  {
    var x := users[i];
    var done := Departing(users[..i], userId);
    LeavingStep(users, userId, i);
    assert Departing(users[..i + 1], userId) == done + [x];
    WriteEachSnoc(db.removeUser, s, done, x, before);
    var later := Departing(users[i + 1..], userId);
    assert users == users[..i + 1] + users[i + 1..];
    DepartingConcat(users[..i + 1], users[i + 1..], userId);
    assert Departing(users, userId) == (done + [x]) + later;
    WriteEachConcat(db.removeUser, s, done + [x], later);
  }

  /** When all but the last entry stay and so does the last, nobody departs. */
  lemma NobodyDeparts(users: seq<Ladder>, userId: string, i: int)
    requires 0 <= i < |users| && users[i].userId != userId
    requires |Staying(users[..i], userId)| == |users| - 1
    ensures Departing(users, userId) == [] && Departing(users[..i], userId) == []
  {
    LeavingStep(users, userId, i);
    LeavingSplits(users[..i + 1], userId);
    assert users[..i + 1] == users;
  }

  /** The slice `userLeft` fills is the compacted ladder: at least one
      entry departed, and exactly one when no zero slot is left over. */
  lemma FilledIsCompacted(users: seq<Ladder>, userId: string, a: seq<Ladder>)
    requires |Staying(users, userId)| <= |a| == |users| - 1
    requires forall j :: 0 <= j < |Staying(users, userId)| ==> a[j] == Staying(users, userId)[j].(rank := j)
    requires forall j :: |Staying(users, userId)| <= j < |a| ==> a[j] == ZeroLadder()
    ensures Departing(users, userId) != [] && a == Compacted(users, userId)
    ensures |Staying(users, userId)| == |a| ==> |Departing(users, userId)| == 1
  {
    LeavingSplits(users, userId);
  }

  /** `newUsers[rank] = u` and then `newUsers[rank].Rank = rank`: slot k
      receives x ranked k, and no other slot changes. */
  method Place(a: array<Ladder>, k: int, x: Ladder)
    requires 0 <= k < a.Length
    modifies a
    ensures a[k] == x.(rank := k)
    ensures forall j :: 0 <= j < a.Length && j != k ==> a[j] == old(a[j])
  {
    a[k] := x;
    a[k] := a[k].(rank := k);
  }

  /** `userLeft`, with the `newUsers` slice as an array filled in place. */
  method UserLeft<S>(db: Db<S>, s: S, channelId: string, userId: string) returns (s': S, run: Run)
    ensures (s', run) == Leaving(db, s, channelId, userId)
  {
    var got := db.getLadder(s, channelId);
    if got.Err? {
      return s, Returned(Fail(got.error));
    }
    var users := got.value;
    if |users| == 0 {
      return s, Panicked(MakesliceLen);
    }
    var newUsers := new Ladder[|users| - 1](_ => ZeroLadder());
    var rank := 0;
    s' := s;
    ghost var kept: seq<Ladder> := [];
    ghost var gone: seq<Ladder> := [];
    var i := 0;
    while i < |users|
      invariant 0 <= i <= |users|
      invariant kept == Staying(users[..i], userId) && gone == Departing(users[..i], userId)
      invariant rank == |kept| <= newUsers.Length
      invariant forall j :: 0 <= j < rank ==> newUsers[j] == kept[j].(rank := j)
      invariant forall j :: rank <= j < newUsers.Length ==> newUsers[j] == ZeroLadder()
      invariant WriteEach(db.removeUser, s, gone) == (s', Pass)
    {
      LeavingStep(users, userId, i);
      if users[i].userId == userId {
        var (s1, o1) := db.removeUser(s', users[i]);
        if o1.Fail? {
          RemovalFailsAt(db, s, users, userId, i, s');
          return s1, Returned(o1);
        }
        WriteEachSnoc(db.removeUser, s, gone, users[i], s');
        gone := gone + [users[i]];
        s' := s1;
      } else {
        if rank == newUsers.Length {
          NobodyDeparts(users, userId, i);
          return s', Panicked(IndexOutOfRange);
        }
        Place(newUsers, rank, users[i]);
        kept := kept + [users[i]];
        rank := rank + 1;
      }
      i := i + 1;
    }
    assert users[..i] == users;
    assert Departing(users, userId) != [] && newUsers[..] == Compacted(users, userId) by {
      FilledIsCompacted(users, userId, newUsers[..]);
    }
    var (s2, o2) := db.updateLadder(s', newUsers[..]);
    return s2, Returned(o2);
  }

  /** The members other than the bot, in order. */
  function NonBot(members: seq<string>, botId: string): (r: seq<string>)
    ensures forall m :: m in r <==> m in members && m != botId
    ensures |r| <= |members|
    ensures botId !in members ==> r == members
    decreases |members|
  {
    if members == [] then []
    else
      var last := members[|members| - 1];
      assert members == members[..|members| - 1] + [last];
      NonBot(members[..|members| - 1], botId) + (if last != botId then [last] else [])
  }

  lemma {:induction false} NonBotPrefix(members: seq<string>, botId: string, i: nat)
    requires i <= |members|
    ensures NonBot(members[..i], botId) <= NonBot(members, botId)
    decreases |members|
  {
    if i < |members| {
      var init := members[..|members| - 1];
      assert init[..i] == members[..i];
      NonBotPrefix(init, botId, i);
    } else {
      assert members[..i] == members;
    }
  }

  /** The users the entries are for, in order. */
  function Users(ls: seq<Ladder>): (r: seq<string>)
    ensures |r| == |ls|
    ensures forall i :: 0 <= i < |ls| ==> r[i] == ls[i].userId
  {
    seq(|ls|, i requires 0 <= i < |ls| => ls[i].userId)
  }

  /** What shuffle's claims look like: each is for the channel, has id 0
      and a rank in [0, ml), and no two claim the same rank. */
  predicate Claims(claimed: seq<Ladder>, channelId: string, ml: int) {
    (forall i :: 0 <= i < |claimed| ==>
       claimed[i].channelId == channelId && claimed[i].id == 0 && 0 <= claimed[i].rank < ml) &&
    (forall i, j :: 0 <= i < j < |claimed| ==> claimed[i].rank != claimed[j].rank)
  }

  /** How shuffle's rank assignment may end, from the cleared state s0
      (ml = |members| - 1): the claims are well formed and go to the
      non-bot members in order; the state is what writing them one by one
      leaves; a failed write is the last claim's; the only panic is the
      modulo by ml = 0, reached when a lone member is not the bot; and a run
      that finishes has given every non-bot member a rank, which needs at
      most ml non-bot members and so needs the bot among the members. */
  ghost predicate Assigned<S>(db: Db<S>, s0: S, channelId: string, members: seq<string>, botId: string,
                              s': S, run: Run, claimed: seq<Ladder>)
  {
    var ml := |members| - 1;
    && Claims(claimed, channelId, ml)
    && Users(claimed) <= NonBot(members, botId)
    && WriteEach(db.insertOrUpdate, s0, claimed) == (s', if run.Returned? then run.outcome else Pass)
    && (run.Returned? && run.outcome.Fail? ==> claimed != [])
    && (run.Panicked? ==> run.reason == DivideByZero && ml == 0 && claimed == [] && members != [botId])
    && (run == Returned(Pass) ==> Users(claimed) == NonBot(members, botId))
    && (run == Returned(Pass) && members != [] ==> |claimed| <= ml && botId in members)
  }

  /** shuffle's inner loop as a value: starting at draw d, the first draw
      whose remainder by ml is a rank not in `taken`, and the number of
      draws consumed up to and including it; None once the draws run out. */
  function FreeRank(taken: set<int>, ml: int, draws: seq<nat>, d: nat): (r: (Option<int>, nat))
    requires 0 < ml && d <= |draws|
    ensures d <= r.1 <= |draws|
    ensures r.0.None? ==> r.1 == |draws|
    ensures r.0.Some? ==> d < r.1 && r.0.value == draws[r.1 - 1] % ml && r.0.value !in taken && 0 <= r.0.value < ml
    ensures forall k :: d <= k < r.1 - (if r.0.Some? then 1 else 0) ==> draws[k] % ml in taken
    decreases |draws| - d
  {
    if d == |draws| then (None, d)
    else if draws[d] % ml !in taken then (Some(draws[d] % ml), d + 1)
    else FreeRank(taken, ml, draws, d + 1)
  }

  /** One member's turn as a value: the rank the draws give, claimed
      for the member and written. Returns the ranks taken, the claims, the
      state, the draws consumed and how the turn ends. */
  function TurnOf<S>(db: Db<S>, channelId: string, member: string, ml: int, taken: set<int>,
                     claimed: seq<Ladder>, s: S, draws: seq<nat>, d: nat): (r: (set<int>, seq<Ladder>, S, nat, Run))
    requires 0 < ml && d <= |draws|
    ensures d <= r.3 <= |draws|
    ensures r.4 == Unfinished || r.4.Returned?
    ensures r.4 == Unfinished ==> r.3 == |draws| && r.0 == taken && r.1 == claimed && r.2 == s
    ensures r.4.Returned? ==>
      && |r.1| == |claimed| + 1 && r.1[..|claimed|] == claimed
      && var x := r.1[|claimed|];
      && x == Ladder(0, channelId, member, x.rank)
      && d < r.3 && 0 <= x.rank < ml && x.rank !in taken && x.rank == draws[r.3 - 1] % ml
      && r.0 == taken + {x.rank}
      && (r.2, r.4.outcome) == db.insertOrUpdate(s, x)
  {
    var (v, d') := FreeRank(taken, ml, draws, d);
    if v.None? then (taken, claimed, s, d', Unfinished)
    else
      var x := Ladder(0, channelId, member, v.value);
      var (s1, o1) := db.insertOrUpdate(s, x);
      assert (claimed + [x])[..|claimed|] == claimed;
      (taken + {v.value}, claimed + [x], s1, d', Returned(o1))
  }

  /** shuffle's outer loop as a value, from member i on: `taken` holds the
      ranks claimed so far, `claimed` the entries claimed (all written,
      giving state s), and d the draws consumed. Returns the state, the
      ending, the claims and the draws consumed. */
  function Assignment<S>(db: Db<S>, channelId: string, ms: seq<string>, botId: string, i: nat,
                         taken: set<int>, claimed: seq<Ladder>, s: S, draws: seq<nat>, d: nat): (S, Run, seq<Ladder>, nat)
    requires i <= |ms| && d <= |draws|
    decreases |ms| - i
  {
    var ml := |ms| - 1;
    if i == |ms| then (s, Returned(Pass), claimed, d)
    else if ms[i] == botId then Assignment(db, channelId, ms, botId, i + 1, taken, claimed, s, draws, d)
    else if ml == 0 then (s, Panicked(DivideByZero), claimed, d)
    else
      var (taken', claimed', s', d', run) := TurnOf(db, channelId, ms[i], ml, taken, claimed, s, draws, d);
      if run != Returned(Pass) then (s', run, claimed', d')
      else Assignment(db, channelId, ms, botId, i + 1, taken', claimed', s', draws, d')
  }

  /** `shuffle` up to the board display: the channel is cleared, its member
      list fetched (`members` is what `getMembers` returned), and ranks are
      assigned. `draws` stands for the successive values of the random
      source; `claimed` lists the entries claimed, in order, and `used` the
      number of draws consumed. */
  method Shuffle<S>(db: Db<S>, s: S, channelId: string, members: Result<seq<string>>, botId: string, draws: seq<nat>)
    returns (s': S, run: Run, claimed: seq<Ladder>, used: nat)
    ensures var (s0, cleared) := db.clearLadder(s, channelId);
      if cleared.Fail? then s' == s0 && run == Returned(cleared) && claimed == [] && used == 0
      else if members.Err? then s' == s0 && run == Returned(Fail(members.error)) && claimed == [] && used == 0
      else
        && (s', run, claimed, used) == Assignment(db, channelId, members.value, botId, 0, {}, [], s0, draws, 0)
        && Assigned(db, s0, channelId, members.value, botId, s', run, claimed)
        && (run == Unfinished ==> used == |draws|)
        && (|members.value| == 1 && members.value[0] != botId ==> run == Panicked(DivideByZero))
  {
    var (s0, cleared) := db.clearLadder(s, channelId);
    if cleared.Fail? {
      return s0, Returned(cleared), [], 0;
    }
    if members.Err? {
      return s0, Returned(Fail(members.error)), [], 0;
    }
    s', run, claimed, used := AssignRanks(db, s0, channelId, members.value, botId, draws);
  }

  /** shuffle's loop: each member other than the bot takes a turn. */
  method AssignRanks<S>(db: Db<S>, s0: S, channelId: string, ms: seq<string>, botId: string, draws: seq<nat>)
    returns (s': S, run: Run, claimed: seq<Ladder>, used: nat)
    ensures (s', run, claimed, used) == Assignment(db, channelId, ms, botId, 0, {}, [], s0, draws, 0)
    ensures Assigned(db, s0, channelId, ms, botId, s', run, claimed)
    ensures run == Unfinished ==> used == |draws|
    ensures |ms| == 1 && ms[0] != botId ==> run == Panicked(DivideByZero)
  {
    AssignmentAssigned(db, s0, channelId, ms, botId, 0, {}, [], s0, draws, 0);
    AssignmentDraws(db, channelId, ms, botId, 0, {}, [], s0, draws, 0);
    ghost var expected := Assignment(db, channelId, ms, botId, 0, {}, [], s0, draws, 0);
    var ml := |ms| - 1;
    var ranks: map<int, Ladder> := map[];
    claimed := [];
    s' := s0;
    var d: nat := 0;
    assert ranks.Keys == {};
    for i := 0 to |ms|
      invariant d <= |draws|
      invariant Assignment(db, channelId, ms, botId, i, ranks.Keys, claimed, s', draws, d) == expected
    {
      if ms[i] != botId {
        if ml == 0 {
          return s', Panicked(DivideByZero), claimed, d;
        }
        var turn;
        ranks, claimed, s', d, turn := Turn(db, channelId, ms[i], ml, ranks, claimed, s', draws, d);
        if turn != Returned(Pass) {
          return s', turn, claimed, d;
        }
      }
    }
    return s', Returned(Pass), claimed, d;
  }

  /** One member's turn: draw until a free rank comes up, claim it in
      `ranks` and write the entry. */
  method Turn<S>(db: Db<S>, channelId: string, member: string, ml: int,
                 ranks: map<int, Ladder>, claimed: seq<Ladder>, s: S, draws: seq<nat>, d: nat)
    returns (ranks': map<int, Ladder>, claimed': seq<Ladder>, s': S, d': nat, run: Run)
    requires 0 < ml && d <= |draws|
    ensures (ranks'.Keys, claimed', s', d', run) == TurnOf(db, channelId, member, ml, ranks.Keys, claimed, s, draws, d)
    ensures run == Unfinished ==> ranks' == ranks
    ensures run.Returned? ==> ranks' == ranks[claimed'[|claimed|].rank := claimed'[|claimed|]]
  {
    var r;
    r, d' := DrawFreeRank(ranks.Keys, ml, draws, d);
    if r.None? {
      return ranks, claimed, s, d', Unfinished;
    }
    ranks' := ranks[r.value := Ladder(0, channelId, member, r.value)];
    var (s1, o1) := db.insertOrUpdate(s, ranks'[r.value]);
    claimed' := claimed + [ranks'[r.value]];
    assert ranks'.Keys == ranks.Keys + {r.value};
    return ranks', claimed', s1, d', Returned(o1);
  }

  /** shuffle's inner loop: draws values from `draws`, starting at
      position d, until one gives a rank `draw % ml` not in `taken`; None
      when the draws run out first. */
  method DrawFreeRank(taken: set<int>, ml: int, draws: seq<nat>, d: nat) returns (r: Option<int>, d': nat)
    requires 0 < ml && d <= |draws|
    ensures (r, d') == FreeRank(taken, ml, draws, d)
  {
    d' := d;
    while d' < |draws|
      invariant d <= d' <= |draws|
      invariant FreeRank(taken, ml, draws, d') == FreeRank(taken, ml, draws, d)
      decreases |draws| - d'
    {
      var v := draws[d'] % ml;
      d' := d' + 1;
      if v !in taken {
        return Some(v), d';
      }
    }
    r := None;
  }

  /** A claim of a rank nobody holds keeps the claims well formed. */
  lemma ClaimsSnoc(claimed: seq<Ladder>, x: Ladder, channelId: string, ml: int, taken: set<int>)
    requires Claims(claimed, channelId, ml)
    requires forall k :: 0 <= k < |claimed| ==> claimed[k].rank in taken
    requires x.channelId == channelId && x.id == 0 && 0 <= x.rank < ml && x.rank !in taken
    ensures Claims(claimed + [x], channelId, ml)
    ensures forall k :: 0 <= k < |claimed + [x]| ==> (claimed + [x])[k].rank in taken + {x.rank}
  {
  }

  /** A turn that claims a rank keeps the claims well formed, adds the
      member to the users served and writes the claim. */
  lemma TurnClaims<S>(db: Db<S>, s0: S, channelId: string, member: string, ml: int, taken: set<int>,
                      claimed: seq<Ladder>, s: S, draws: seq<nat>, d: nat)
    requires 0 < ml && d <= |draws|
    requires Claims(claimed, channelId, ml)
    requires forall k :: 0 <= k < |claimed| ==> claimed[k].rank in taken
    requires WriteEach(db.insertOrUpdate, s0, claimed) == (s, Pass)
    requires TurnOf(db, channelId, member, ml, taken, claimed, s, draws, d).4.Returned?
    ensures var r := TurnOf(db, channelId, member, ml, taken, claimed, s, draws, d);
      && Claims(r.1, channelId, ml)
      && (forall k :: 0 <= k < |r.1| ==> r.1[k].rank in r.0)
      && Users(r.1) == Users(claimed) + [member]
      && WriteEach(db.insertOrUpdate, s0, r.1) == (r.2, r.4.outcome)
  {
    var r := TurnOf(db, channelId, member, ml, taken, claimed, s, draws, d);
    var x := r.1[|claimed|];
    assert r.1 == claimed + [x];
    ClaimsSnoc(claimed, x, channelId, ml, taken);
    WriteEachSnoc(db.insertOrUpdate, s0, claimed, x, s);
  }

  /** A run of the loop that ends unfinished has consumed every draw. */
  lemma {:induction false} AssignmentDraws<S>(db: Db<S>, channelId: string, ms: seq<string>, botId: string,
                                              i: nat, taken: set<int>, claimed: seq<Ladder>, s: S, draws: seq<nat>, d: nat)
    requires i <= |ms| && d <= |draws|
    ensures var r := Assignment(db, channelId, ms, botId, i, taken, claimed, s, draws, d);
      d <= r.3 <= |draws| && (r.1 == Unfinished ==> r.3 == |draws|)
    decreases |ms| - i
  {
    if i < |ms| {
      if ms[i] == botId {
        AssignmentDraws(db, channelId, ms, botId, i + 1, taken, claimed, s, draws, d);
      } else if |ms| - 1 != 0 {
        var (taken', claimed', s', d', run) := TurnOf(db, channelId, ms[i], |ms| - 1, taken, claimed, s, draws, d);
        if run == Returned(Pass) {
          AssignmentDraws(db, channelId, ms, botId, i + 1, taken', claimed', s', draws, d');
        }
      }
    }
  }

  /** What the loop computes, from any point reached with well-formed
      claims for the members before i, ends as `Assigned` allows. */
  lemma {:induction false} AssignmentAssigned<S>(db: Db<S>, s0: S, channelId: string, ms: seq<string>, botId: string,
                                                 i: nat, taken: set<int>, claimed: seq<Ladder>, s: S, draws: seq<nat>, d: nat)
    requires i <= |ms| && d <= |draws|
    requires Claims(claimed, channelId, |ms| - 1)
    requires Users(claimed) == NonBot(ms[..i], botId)
    requires forall k :: 0 <= k < |claimed| ==> claimed[k].rank in taken
    requires WriteEach(db.insertOrUpdate, s0, claimed) == (s, Pass)
    ensures var r := Assignment(db, channelId, ms, botId, i, taken, claimed, s, draws, d);
      Assigned(db, s0, channelId, ms, botId, r.0, r.1, r.2)
    decreases |ms| - i
  {
    var ml := |ms| - 1;
    if i == |ms| {
      Finishes(db, s0, channelId, ms, botId, s, claimed);
    } else {
      NonBotStep(ms, botId, i);
      if ms[i] == botId {
        AssignmentAssigned(db, s0, channelId, ms, botId, i + 1, taken, claimed, s, draws, d);
      } else if ml == 0 {
        PanicAssigned(db, s0, channelId, ms, botId, s, claimed);
      } else {
        var (taken', claimed', s', d', run) := TurnOf(db, channelId, ms[i], ml, taken, claimed, s, draws, d);
        if run == Unfinished {
          StopsEarly(db, s0, channelId, ms, botId, i, s, Unfinished, claimed);
        } else {
          TurnClaims(db, s0, channelId, ms[i], ml, taken, claimed, s, draws, d);
          assert Users(claimed') == NonBot(ms[..i + 1], botId);
          if run.outcome.Fail? {
            StopsEarly(db, s0, channelId, ms, botId, i + 1, s', run, claimed');
          } else {
            AssignmentAssigned(db, s0, channelId, ms, botId, i + 1, taken', claimed', s', draws, d');
          }
        }
      }
    }
  }

  /** A lone member who is not the bot makes ml = 0, so shuffle's first
      draw divides by zero: the run panics with nothing claimed, nothing
      written and no draw consumed. */
  lemma Panics<S>(db: Db<S>, s0: S, channelId: string, ms: seq<string>, botId: string, draws: seq<nat>)
    requires |ms| == 1 && ms[0] != botId
    ensures Assignment(db, channelId, ms, botId, 0, {}, [], s0, draws, 0) == (s0, Panicked(DivideByZero), [], 0)
  {
  }

  /** The panic ending is one `Assigned` allows. */
  lemma PanicAssigned<S>(db: Db<S>, s0: S, channelId: string, ms: seq<string>, botId: string, s': S, claimed: seq<Ladder>)
    requires |ms| == 1 && ms[0] != botId
    requires Users(claimed) == NonBot(ms[..0], botId)
    requires WriteEach(db.insertOrUpdate, s0, claimed) == (s', Pass)
    ensures Assigned(db, s0, channelId, ms, botId, s', Panicked(DivideByZero), claimed)
  {
    assert claimed == [];
  }

  lemma StopsEarly<S>(db: Db<S>, s0: S, channelId: string, ms: seq<string>, botId: string, i: int,
                      s': S, run: Run, claimed: seq<Ladder>)
    requires 0 <= i <= |ms|
    requires Claims(claimed, channelId, |ms| - 1)
    requires Users(claimed) == NonBot(ms[..i], botId)
    requires WriteEach(db.insertOrUpdate, s0, claimed) == (s', if run.Returned? then run.outcome else Pass)
    requires run == Unfinished || (run.Returned? && run.outcome.Fail?)
    requires run.Returned? ==> claimed != []
    ensures Assigned(db, s0, channelId, ms, botId, s', run, claimed)
  {
    NonBotPrefix(ms, botId, i);
  }

  lemma Finishes<S>(db: Db<S>, s0: S, channelId: string, ms: seq<string>, botId: string,
                    s': S, claimed: seq<Ladder>)
    requires Claims(claimed, channelId, |ms| - 1)
    requires Users(claimed) == NonBot(ms[..|ms|], botId)
    requires WriteEach(db.insertOrUpdate, s0, claimed) == (s', Pass)
    ensures Assigned(db, s0, channelId, ms, botId, s', Returned(Pass), claimed)
  {
    assert ms[..|ms|] == ms;
    var ml := |ms| - 1;
    DistinctRanksBound(claimed, if ml < 0 then 0 else ml);
  }

  lemma NonBotStep(members: seq<string>, botId: string, i: int)
    requires 0 <= i < |members|
    ensures NonBot(members[..i + 1], botId) ==
      NonBot(members[..i], botId) + (if members[i] != botId then [members[i]] else [])
  {
    assert members[..i + 1][..i] == members[..i];
  }
}
