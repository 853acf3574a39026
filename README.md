# ladder-bot, modelled in Dafny

ladder-bot is a Slack bot that keeps a challenge ladder for each channel. Each
participant holds a rank, and rank 0 is the top. A participant may challenge
the one directly above. Winning swaps the two. Joining the channel puts a user
at the bottom. Leaving removes the user and closes the gap. `shuffle` deals
fresh ranks to all members at random. Ladders are stored in a SQLite table or,
in a second, unfinished backend, in bolt buckets. A transfer routine copies
every ladder from one store into another.

This project models the ranking engine, both storage backends, the record
types and the transfer, and proves what each of them does. The property that
ties them together is one the source never checks. Over a well-formed SQLite
table whose channel ranks are 0, ..., n-1, each held once, `won`, a
newcomer's `userJoined` and `userLeft` of a user on the ladder keep them so,
and a `shuffle` that finishes over a member list without repeats leaves the
channel ranked that way. The exceptions are spelled out below: a user who
joins again while on the ladder, a shuffle with a repeated member, and a
shuffle that panics, runs out of draws or fails partway, which leave the
claims made so far in place.

The modules follow the source files:

- `records.dfy` (`Records`) — the `ladder` record, the error model, and the
  `ladders` sort helpers. The error model is a root cause plus the context
  strings `errors.Wrap` added, so `errors.Cause(err).(errNotFound)` becomes
  `IsNotFound`. Source: main.go.
- `store.dfy` (`Store`) — the `DB` interface. It is a record of functions over
  an abstract store state: queries return a `Result`, and writes return the
  new state with an `Outcome`. It also defines `WriteEach`, the
  "write each entry, stop at the first error" loop that several handlers
  share. Source: database.go.
- `commands.dfy` (`Commands`) — `won`, `challenge`, `userJoined`, `userLeft`
  and the rank-assignment part of `shuffle`, all generic over any store.
  Source: commands.go.
- `sqlite.dfy` (`Sqlite`) — the `ladder` table as an in-memory sequence of
  rows in rowid order. Queries are filters and a stable sort. Writes are
  table transformers. Source: sqlite.go.
- `bolt.dfy` (`Bolt`) — a class whose only field is the bucket map (bucket →
  key → record). Source: boltdb.go.
- `transfer.dfy` (`Transfer`) — `transferData` and `openDatabase`'s name
  check. Source: main.go.
- `ranking.dfy`, `contiguity.dfy`, `leaving.dfy`, `reshuffle.dfy`,
  `handlers.dfy` — the rank multiset and the contiguity invariant. They prove
  what each handler does to a SQLite ladder. `Handlers` states the results as
  one method per handler.

A handler ends in one of two ways. It returns an `Outcome`, which is nil or
an error. Or the Go runtime panics: `userLeft` can allocate a slice of length
-1 or index past its end, and `shuffle` can take a remainder by zero. Those
panics are modelled as `Run.Panicked` with the runtime's message, not as
preconditions. `shuffle`'s random numbers are an input sequence of draws. A
run that uses up the draws before it is done is `Unfinished`.

## Model

| member | source | states |
|---|---|---|
| Records.ZeroLadder | main.go:20-25 | the zero record, which fills a fresh slice slot, has empty channel and user, rank 0 and id 0 |
| Records.NewError | main.go:68 | a plain error has no wrapping context and is not the not-found sentinel |
| Records.NotFoundError | main.go:16-18 | the sentinel wrapped once is recognised as not found |
| Records.Wrap | commands.go:82 | wrapping adds one context and keeps the cause, so a wrapped not-found error is still not found |
| Records.WrapOutcome | boltdb.go:109 | wrapping a nil error gives nil; wrapping an error wraps it |
| Records.LessIsStrictWeakOrder | main.go:29 | comparing by rank is irreflexive, transitive, and its incomparability is transitive, as `sort.Sort` requires |
| Records.Swap | main.go:31 | positions i and j exchange their entries, every other position keeps its entry, and the contents are unchanged as a multiset |
| Store.WriteEachConcat | sqlite.go:121-129 | writing a + b is writing a, then b only if a succeeded; a failure inside b keeps a's writes, so nothing is atomic |
| Store.WriteEachStopsAt | sqlite.go:122-126 | when writes 0..j-1 succeed and write j fails, that failure is the result and no later entry is written |
| Store.WriteEachSnoc | sqlite.go:122-126 | after a run of successful writes, one more entry is just one more write |
| Commands.Won | commands.go:103-127 | an unknown winner's error is returned and nothing changes; a winner at rank 0 writes nothing and succeeds; any `getUserAbove` error, not-found included, is returned with nothing written; otherwise exactly two upserts are made: first the winner with the loser's rank, then the loser with the winner's rank, stopping at the first error |
| Commands.Challenge | commands.go:74-86 | a `getUser` error is returned; a not-found from `getUserAbove` is silent success and every other error from it is returned; with no error the challenged entry is `getUserAbove`'s |
| Commands.UserJoined | commands.go:222-233 | a `getLastUser` error, not-found on an empty ladder included, is returned with nothing written; otherwise a single upsert writes the user, in that channel, at the last rank + 1 |
| Commands.LeavingSplits | commands.go:244-255 | each ladder entry is either the leaving user's (it departs) or someone else's (it stays), and the two lists together have the ladder's length |
| Commands.Renumbered | commands.go:252-254 | each staying entry gets its position as its rank and keeps its id, channel and user |
| Commands.Compacted | commands.go:241-255 | with the user on the ladder, the list handed to `updateLadder` has one slot fewer than the ladder: the staying entries in ladder order ranked 0, 1, ..., then one zero record for each further entry of the leaving user |
| Commands.RemovalFailsAt | commands.go:245-248 | a failing removal ends the loop with that removal's error |
| Commands.FilledIsCompacted | commands.go:241-255 | a filled `newUsers` slice is the compacted ladder, and at least one entry departed; with no zero slot left over, exactly one entry departed |
| Commands.Place | commands.go:252-253 | slot k of the slice receives the entry with rank k, and no other slot changes |
| Commands.UserLeft | commands.go:235-258 | state and ending equal `Leaving`: an empty ladder panics at the slice allocation; a ladder without the user indexes past `newUsers` and panics before any write; a failed removal or lookup is returned; otherwise the removals, then `updateLadder` of the compacted ladder |
| Commands.NonBot | commands.go:168-171 | the members the loop gives a rank are exactly those other than the bot, in order, and nobody else |
| Commands.FreeRank | commands.go:172-174 | the rejection loop over the draws: the rank it settles on is the last draw consumed modulo ml, lies in [0, ml) and is not yet taken, and every draw skipped before it landed on a taken rank; with no such draw left every draw is consumed and there is no rank |
| Commands.TurnOf | commands.go:172-185 | one member's turn either uses up the draws and changes nothing, or consumes at least one draw and claims exactly one new entry for that member in the channel, id 0, at the fresh rank; the claim's upsert is the turn's only write and its outcome is the turn's |
| Commands.AssignmentDraws | commands.go:166-186 | the shuffle consumes draws in order, never more than given, and is unfinished only when every draw is consumed |
| Commands.AssignmentAssigned | commands.go:166-186 | every ending of the rank loop is one `Assigned` allows: claims one per non-bot member in list order at distinct ranks in [0, ml), their upserts in order ending in the run's outcome, a panic only for a lone non-bot member, and a finished run that served every member other than the bot |
| Commands.TurnClaims | commands.go:175-182 | a turn that claims extends the claim list by its member, keeps the ranks distinct, and its write continues the run of upserts |
| Commands.Shuffle | commands.go:156-186 | the channel is cleared first and a clearing error is returned with nothing claimed and no draw used; a member-lookup error is returned after the clear; otherwise the state, ending, claims and draws consumed are exactly the rank loop's from an empty claim set, which is an ending `Assigned` allows, unfinished only when the draws run out, and a forced divide-by-zero panic for a lone non-bot member |
| Commands.AssignRanks | commands.go:166-186 | state, ending, claims and draws consumed equal the rank loop's specification; a lone non-bot member (ml = 0) panics with "integer divide by zero" before any claim; each claim is one entry in the channel with id 0 and a rank in [0, ml) that no other claim holds; the claims go to the members other than the bot in list order; the upserts are exactly the claims in order, and a failed one is the last; a run is unfinished only when every draw is consumed; a finished run has served every member other than the bot, which is possible only when the bot is among the members |
| Commands.Turn | commands.go:172-185 | the taken ranks, claims, state, draws consumed and ending are exactly `TurnOf`'s; an unfinished turn leaves the rank map alone, and a claiming turn adds its claim under its rank |
| Commands.DrawFreeRank | commands.go:172-174 | the rank and the draws consumed are exactly `FreeRank`'s |
| Commands.Panics | commands.go:166-173 | with one member who is not the bot, ml = 0 and the rank loop is forced to panic with "integer divide by zero", leaving the state unchanged, nothing claimed and no draw consumed |
| Sqlite.KeyIndex | sqlite.go:46 | locates the first row, in rowid order, with the (channel, user) key, or the table length when there is none |
| Sqlite.GetUser | sqlite.go:44-56 | succeeds exactly when a row has the key; returns the first such row; otherwise a wrapped not-found "unable to get user" |
| Sqlite.AboveIndex | sqlite.go:60 | the row `ORDER BY rank DESC` puts first among the channel's rows ranked at most r-1: one holding the greatest such rank |
| Sqlite.GetUserAbove | sqlite.go:58-70 | succeeds exactly when the channel has a row ranked at most r-1; returns such a row with the greatest rank; otherwise a wrapped not-found "unable to get user above" |
| Sqlite.SortByRank | sqlite.go:87 | `ORDER BY rank` gives a permutation of its input, sorted by ascending rank |
| Sqlite.GetLadder | sqlite.go:85-93 | never fails; returns exactly the channel's rows, as a multiset, sorted by ascending rank; an empty channel gives an empty list |
| Sqlite.GetLastUser | sqlite.go:72-83 | succeeds exactly when the channel has a row, and then returns a row of the channel with the greatest rank; otherwise a wrapped not-found "unable to get user below" |
| Sqlite.SortedLastIsMax | sqlite.go:82 | the last entry of the sorted ladder has the greatest rank |
| Sqlite.ClearLadder | sqlite.go:95-98 | keeps exactly the rows of other channels; every other channel's rows are unchanged; the channel has no rows left; clearing a channel with no rows leaves the table unchanged |
| Sqlite.ClearTwice | sqlite.go:95-98 | clearing a channel that is already empty changes nothing, so clearing is idempotent |
| Sqlite.RemoveUser | sqlite.go:100-103 | keeps exactly the rows without the entry's (channel, user) key; with no such row the table is unchanged; over unique keys it cuts out exactly the key's row (`Leave.RemoveTheRow`) |
| Sqlite.FreshId | sqlite.go:109 | the rowid of an inserted row is 1 in an empty table and otherwise one more than the largest id in use, so above every id in use |
| Sqlite.InsertOrUpdate | sqlite.go:105-119 | an absent key appends one row whose id is `FreshId`'s, distinct from every id in use; a present key replaces that row's rank only, keeping id, channel, user and row count; afterwards `getUser` finds the key with the new rank; a well-formed table stays well formed |
| Sqlite.UpdateAll | sqlite.go:121-129 | upserting a list of entries keeps the table well formed |
| Sqlite.UpdateAllConcat | sqlite.go:121-129 | writing a + b is writing a and then b, with no grouping of the statements |
| Sqlite.UpdateLadder | sqlite.go:121-129 | the loop leaves the table with every entry upserted in list order |
| Sqlite.UpsertsAll | sqlite.go:121-129 | upserting entries one at a time when no upsert fails passes and leaves `UpdateAll`'s table |
| Sqlite.SqliteDb | sqlite.go:44-129 | the sqlite backend behind the store interface: its group listing is the one the caller supplies; clearing, removal and upsert never fail; `updateLadder` is exactly the stop-at-first-error loop of single upserts |
| Bolt.ZeroUser | boltdb.go:32 | the zero user record: empty id and channel, rating 0 |
| Bolt.Insert | boltdb.go:90-105 | creates the channel's bucket if it is missing and stores the record under its id, overwriting; every other key of every bucket is kept; an empty bucket name or empty key fails with the wrapped error, and no other record fails |
| Bolt.MaxByRating | boltdb.go:60-65 | the result's rating is at least every record's; it is the zero record when no rating is positive, and otherwise the first record that reaches the maximum |
| Bolt.BoltDb.constructor | boltdb.go:14-21 | an opened database has the given buckets |
| Bolt.BoltDb.GetUser | boltdb.go:31-52 | a missing bucket is a plain error that is not not-found; a missing key in an existing bucket gives the zero record and no error; otherwise the stored record |
| Bolt.BoltDb.GetUsers | boltdb.go:80-88 | as written, always an empty list and no error |
| Bolt.BoltDb.GetLastUser | boltdb.go:54-68 | as written, always the zero record and no error |
| Bolt.BoltDb.GetBuckets | boltdb.go:70-78 | never fails, and lists every bucket's name exactly once |
| Bolt.BoltDb.InsertOrUpdate | boltdb.go:107-110 | succeeds exactly when the record has a channel and an id, and then stores it so that `getUser` returns it; on failure nothing changes and the error is wrapped "unable to insert user" |
| Bolt.BoltDb.UpdateUsers | boltdb.go:112-125 | all inserts run in one transaction: on success the buckets are the batch applied in order; on the first failure nothing becomes visible; it succeeds exactly when every record has a channel and an id |
| Bolt.WriteEachKeepsUntouched | boltdb.go:118-122 | a batch of valid records always succeeds and keeps every stored record whose key the batch does not write |
| Bolt.WriteEachStoresLast | boltdb.go:118-122 | after a batch, each key holds the last record the batch wrote under it |
| Transfer.CopyGroup | main.go:46-54 | a failed fetch returns its error and writes nothing; otherwise the fetched entries go, unchanged, to `updateLadder` |
| Transfer.TransferData | main.go:37-58 | a listing error is returned with nothing written; otherwise the groups are copied in listed order, and the first fetch or write error ends the transfer |
| Transfer.TransferNothing | main.go:45-57 | with no groups, the output is untouched and the transfer succeeds |
| Transfer.Fetched | main.go:46 | for each group, in order, the entries fetched from the input |
| Transfer.CopyIsUpdates | main.go:45-55 | when every fetch succeeds, the transfer is `updateLadder` applied to each group's entries in turn |
| Transfer.TransferStopsAt | main.go:46-54 | when group j fails, at the fetch or the write, after earlier groups copied cleanly, its error is the result and no later group is copied |
| Transfer.IntoSqlite | main.go:45-55 | a transfer into sqlite whose fetches all succeed never fails and leaves every group's entries upserted in order |
| Transfer.Replayed | main.go:45-55 | replaying lists of entries keeps a well-formed table well formed |
| Transfer.OpenDatabase | main.go:60-68 | "sqlite" and "boltdb" select their backends; any other name fails with "invalid database argument", which is not not-found |
| Ranking.PermutationRanks | sqlite.go:87 | reordering the entries, as the sort does, keeps the ranks held |
| Ranking.FullInterval | commands.go:173-174 | ranks held once each below n number at most n, and exactly n only when they are 0, ..., n-1 |
| Ranking.DistinctRanksBound | commands.go:173-175 | entries with distinct ranks in [0, n) number at most n; exactly n of them hold every rank |
| Contiguity.ChannelRowsUpdate | sqlite.go:115 | changing a row within its channel swaps one rank in the channel's rank multiset for another |
| Contiguity.ChannelRowsElsewhere | sqlite.go:115 | changing a row of another channel leaves the channel's rows alone |
| Contiguity.KeyIndexOfRow | sqlite.go:46 | with one row per key, looking up row m's key finds row m |
| Contiguity.UpsertsNeverFail | sqlite.go:105-129 | on sqlite every upsert succeeds, so a run of upserts is `UpdateAll` |
| Contiguity.AboveOnContiguous | sqlite.go:58-70 | on a contiguous ladder, `getUserAbove(r)` for 0 <= r <= n succeeds exactly when r > 0, and then has rank r-1 |
| Contiguity.ChallengeOnContiguous | commands.go:74-86 | on a contiguous sqlite ladder an unknown user gets a not-found error; the top user has nobody to challenge and gets silent success; anyone else challenges the user at rank r-1 of the channel |
| Contiguity.SwapKeepsContiguous | commands.go:119 | two rows of the channel exchanging ranks keep it contiguous |
| Contiguity.ExchangeWrites | commands.go:121-127 | upserting two existing rows with each other's rank changes exactly those two ranks in place |
| Contiguity.WonOnContiguous | commands.go:103-127 | on a well-formed contiguous ladder a winner below the top swaps with the row at rank r-1; only those two rows change, and the ladder stays well formed and contiguous |
| Contiguity.JoinEmpty | commands.go:222-226 | on an empty ladder `getLastUser` is not-found, so `userJoined` fails and writes nothing |
| Contiguity.LastOnContiguous | sqlite.go:72-83 | on a non-empty contiguous ladder the last user has rank n-1 |
| Contiguity.AppendKeepsContiguous | sqlite.go:109 | a row of the channel appended at rank n keeps it contiguous, one row longer |
| Contiguity.JoinOnContiguous | commands.go:222-233 | a newcomer on a non-empty contiguous ladder is appended at rank n with a fresh id; the ladder stays well formed and contiguous |
| Leave.ChannelRowsOnce | sqlite.go:35 | with distinct row ids no row occurs twice among a channel's rows |
| Leave.LadderDistinctUsers | sqlite.go:85-93 | on a well-formed table the ladder has at most one entry per user |
| Leave.LeavingBags | commands.go:244-255 | counted with repetition, the departing and staying entries make up the ladder |
| Leave.NoneDepart | commands.go:245 | when no entry is for the user, nobody departs |
| Leave.DepartsOnce | commands.go:245 | with one entry per user, at most one entry departs |
| Leave.StayingDistinct | commands.go:252 | the staying entries keep one entry per user |
| Leave.DepartingIsTheRow | commands.go:244-250 | on a well-formed table holding the user, exactly the user's row departs |
| Leave.RemoveAbsent | sqlite.go:100-103 | removing a key that no row has changes nothing |
| Leave.RemoveTheRow | sqlite.go:100-103 | removing a key only row k has removes exactly row k |
| Leave.UpdateRanks | sqlite.go:121-129 | upserting entries whose rows are present only changes ranks: same rows, same count, and the channel's ranks trade the old ranks for the new |
| Leave.RenumberedRanks | commands.go:252-254 | renumbered entries hold the ranks 0, ..., n-1 |
| Leave.ValidWithout | sqlite.go:100-103 | removing a row keeps a table well formed |
| Leave.LeavingOnSqlite | commands.go:235-258 | on a well-formed sqlite table holding the user, `userLeft` removes that user's row and then upserts the compacted ladder, and succeeds |
| Leave.RemovedChannelRows | sqlite.go:100-103 | removing row k takes exactly that row out of its channel |
| Leave.RemovedRows | commands.go:246 | after removing the user's row the table is well formed, no row has the user's key, and the channel has one row fewer: as a multiset, exactly the staying entries |
| Leave.StayingAreRows | commands.go:252 | the staying entries are the channel's rows remaining after the removal |
| Leave.LeftContiguous | commands.go:235-258 | after `userLeft` of a user on the ladder, the table is well formed, the channel is contiguous with one row fewer, and the user has no row |
| Leave.RemoveElsewhere | sqlite.go:100-103 | removing a key's rows leaves every other channel's rows as they were |
| Leave.UpdateRanksElsewhere | sqlite.go:121-129 | upserting present rows of one channel leaves every other channel's rows as they were |
| Leave.UpdateRanksRows | sqlite.go:121-129 | upserting present rows for distinct users of one channel sets each entry's row, in place, to that entry, and keeps every other row as it was |
| Leave.LeftElsewhere | commands.go:235-258 | `userLeft` of a user on the sqlite ladder leaves every other channel's rows as they were |
| Leave.LeftRanks | commands.go:249-255 | after `userLeft`, each user who stays keeps their row, now ranked by their position among those who stay, so the ladder's relative order is kept |
| Leave.LeavingAbsent | commands.go:241-253 | for a user not on the sqlite ladder, `userLeft` panics and writes nothing: on an empty ladder at the slice allocation, otherwise at the index past `newUsers` |
| Reshuffle.NonBotDrops | commands.go:165-166 | in a member list without repeats that includes the bot, the members served number one fewer: ml |
| Reshuffle.NonBotDistinct | commands.go:168-171 | leaving out the bot keeps a member list without repeats free of them |
| Reshuffle.ClearKeepsValid | sqlite.go:95-98 | clearing a channel keeps a table well formed |
| Reshuffle.InsertFreshStep | sqlite.go:108-109 | the first claim of a user with no row is appended as a new row with a fresh id |
| Reshuffle.AppendedUser | sqlite.go:109 | an appended row of the channel adds its user at the end of the channel's users |
| Reshuffle.InsertFreshUsers | commands.go:175-182 | claims for distinct new users each become a row, for the claim's user and in claim order |
| Reshuffle.InsertFreshRanks | commands.go:175-182 | the new rows hold exactly the claimed ranks |
| Reshuffle.InsertFreshOthers | commands.go:175-182 | inserting one channel's claims leaves every other channel's rows alone |
| Reshuffle.InsertFreshValid | commands.go:175-182 | inserting the claims keeps the table well formed |
| Reshuffle.ShuffleNeverFails | commands.go:180-182 | on sqlite no write of the loop fails, and the table is the cleared one with the claims upserted |
| Reshuffle.ClaimsInsertable | commands.go:166-186 | the claims of a finished run are for distinct members with no row in the cleared channel |
| Reshuffle.ClaimedRanks | commands.go:166-186 | the ranks a finished run claims are 0, ..., n-1, for the n members served |
| Reshuffle.RowOfUser | sqlite.go:44-56 | a user listed among the channel's rows has a row to fetch |
| Reshuffle.FilledContiguous | commands.go:175-182 | claims holding 0, ..., n-1 inserted into an empty channel make it contiguous, with exactly the claimed users |
| Reshuffle.ShuffledContiguous | commands.go:156-186 | a finished shuffle over members without repeats leaves a well-formed table; the channel is contiguous and holds exactly the members other than the bot, in list order, each with a row; other channels are unchanged |
| Handlers.WonOnLadder | commands.go:103-127 | on a well-formed contiguous sqlite ladder `won` keeps it well formed and contiguous; an unknown winner gets not-found and no change; the top user succeeds with no change; anyone else climbs one rank, the user above drops one, and no other row changes |
| Handlers.JoinOnLadder | commands.go:222-233 | for a newcomer on a well-formed contiguous sqlite ladder: an empty ladder gives not-found and no change; otherwise the user is appended at rank n with a fresh id, and the ladder stays well formed and contiguous |
| Handlers.JoinedOnSqlite | commands.go:228-232 | with a last user present, `userJoined` on sqlite is one successful upsert at the last rank + 1 |
| Handlers.LeaveOnLadder | commands.go:235-258 | on a well-formed sqlite table an absent user panics and nothing changes; for a present user the new table is exactly the user's row removed and the staying entries upserted with their positions as ranks: it stays well formed, the channel is contiguous with one row fewer and no row for the user, each staying user's row holds their position among those who stay, and other channels are unchanged |
| Handlers.ShuffleOnLadder | commands.go:156-186 | on sqlite a member-lookup error leaves the channel cleared and is returned; no write fails; a finished run over members without repeats leaves a contiguous ladder of exactly the non-bot members, with other channels unchanged |

## Left out

- Slack: fetching user info, the member lookup (`getMembers`), `sendMessage` with its retries, and every message text. They are network I/O and presentation. The member list is an input to `Shuffle`, and handlers produce no messages.
- `rank`, `board`, `help`, `checkMessage`, `runCommand` and the command table, including the board display at the end of `shuffle`. They are presentation and keyword matching and change no ranks.
- `main`'s flags, event loop and goroutine; elo.go, log.go and config.go. These are process bootstrap, logging, environment lookup and floating point.
- `Close` and `createLadderTable` on both backends, and the file opening in `NewSqlite` and `NewBoltDB`, are left out as resource handling and DDL. `OpenDatabase` models only the name check, so the filename is not an argument.
- SQL driver and statement errors are not modelled, because the in-memory table cannot fail. So no sqlite operation ever returns "unable to select from ladder" and similar errors.
- Bolt's transactions and JSON encoding are modelled only at the level of committed buckets, with serialisation as identity. That is, the model does not capture bucket iteration order for `GetBuckets` and whether `json.Unmarshal` fails on stored bytes.
- Bolt.BoltDb.UpdateUsers: the model lets later writes proceed after a failed batch. In the source, a failed insert returns early (boltdb.go:118-120) without rolling back the transaction begun at boltdb.go:113, so the database's writer lock stays held, and every later write on that handle hangs, even from a single goroutine.
- Bolt.Insert: does not model bolt's `ErrKeyTooLarge` (an id longer than 32768 bytes) or `ErrValueTooLarge` (a JSON record longer than bolt's maximum value size), because the model has no byte encoding of strings or records. Its "no other record fails" holds only for records within those limits.
- Ranks and ids are unbounded integers, not `int64`, so `last.Rank + 1` and `rand.Int63()` wrap-around are not modelled.
- `shuffle`'s randomness is the `draws` input sequence. A run that exhausts the draws ends `Unfinished`, so the possibly endless rejection loop is bounded by the draws given.
- `ladders.Len` is sequence length; it has no member of its own.
- The store interface's `getLadders` has no source in sqlite.go. `SqliteDb` takes it as a parameter, and boltdb.go's `user`-typed methods are modelled on the bolt class alone, because boltdb.go does not implement that interface.
- Sqlite.SortByRank: `ORDER BY rank` leaves the order of equal ranks open. The model fixes it as rowid order, a stable sort, which is one of the orders SQLite may produce.
- Sqlite.AboveIndex: `ORDER BY rank DESC LIMIT 1` leaves open which of several rows of equal rank comes first. The model picks the earliest in rowid order, one of the rows SQLite may return; its contract promises only a row of greatest rank.
- Handlers.JoinOnLadder: requires the user to have no row. A user who "joins" while already on the ladder is moved to the last rank + 1, which can leave a gap. `Commands.UserJoined` covers that case without the requirement.
- Handlers.ShuffleOnLadder: the contiguity result is stated for member lists without repeats. A repeated member is upserted twice and leaves an unused rank.
- Handlers.WonOnLadder, Handlers.JoinOnLadder and Handlers.LeaveOnLadder assume a well-formed table: distinct ids and at most one row per (channel, user). The SQLite schema declares only the id key, and only `insertOrUpdate`'s lookup maintains the second, so the model proves every writer keeps it.
- Behaviour a reader might not expect, kept as the code has it:
  - joining an empty ladder fails with not-found instead of giving rank 0;
  - sqlite's `updateLadder` is not atomic: earlier writes stay when a later one fails;
  - `won` makes two separate writes;
  - `userLeft` panics, rather than returning an error, for a user who is not on the ladder.
